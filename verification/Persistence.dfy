/** Snapshots of a broker on disk. */
module Persistence {
  import opened Wrappers
  import opened Instance
  import opened Journal
  import opened Broker

  datatype Snapshot = Snapshot(
    modelVersion: string,
    instances: seq<MimInstance>,
    inactive: seq<string>,
    journal: seq<JournalEntry>,
    sequence: nat,
    applied: nat)

  /** A snapshot lists the inactive set in no particular order. */
  ghost predicate SnapshotOf(s: Snapshot, b: BrokerState)
    requires Indexed(b)
  {
    && s.modelVersion == b.registry.version
    && s.instances == Values(b)
    && (set oid | oid in s.inactive) == b.inactive
    && s.journal == b.journal && s.sequence == b.sequence && s.applied == b.applied
  }

  /** A stored watermark of zero is read as the stored sequence. */
  function LoadedWatermark(sequence: nat, applied: nat): nat {
    if applied == 0 then sequence else applied
  }

  function Load(file: Option<Snapshot>, registry: Registry): Result<BrokerState, TransportError> {
    match file
    case None => Ok(New(registry))
    case Some(s) =>
      if s.modelVersion != registry.version then Err(Validation)
      else Ok(Restored(registry, s.instances, s.inactive, s.journal, s.sequence,
                       LoadedWatermark(s.sequence, s.applied)))
  }

  /** What a save followed by a load leaves of a broker. */
  function Reloaded(b: BrokerState): BrokerState {
    b.(applied := LoadedWatermark(b.sequence, b.applied))
  }

  /** Every instance is stored under its own identifier. */
  ghost predicate StoredByOid(b: BrokerState) {
    forall oid :: oid in b.store ==> b.store[oid].oid == oid
  }

  lemma {:induction false} CollectedRestoresIndex(b: BrokerState, n: nat)
    requires Indexed(b) && StoredByOid(b) && n <= |b.keys|
    ensures Collected(Values(b)[..n]).0 == b.keys[..n]
    ensures var m := Collected(Values(b)[..n]).1;
      (forall k :: k in m <==> k in b.keys[..n]) && forall k :: k in m ==> m[k] == b.store[k]
  {
    hide Values;
    if n == 0 {
    } else {
      CollectedRestoresIndex(b, n - 1);
      var list := Values(b)[..n];
      assert list[..n - 1] == Values(b)[..n - 1];
      assert list[n - 1] == b.store[b.keys[n - 1]];
      assert b.keys[..n] == b.keys[..n - 1] + [b.keys[n - 1]];
    }
  }

  lemma CollectedRestores(b: BrokerState)
    requires Indexed(b) && StoredByOid(b)
    ensures Collected(Values(b)) == (b.keys, b.store)
  {
    hide Collected;
    CollectedRestoresIndex(b, |b.keys|);
    assert Values(b)[..|b.keys|] == Values(b) && b.keys[..|b.keys|] == b.keys;
    assert Collected(Values(b)).1 == b.store;
  }

  /** Loading a saved broker restores everything but a zero watermark; so it restores the broker itself exactly when
      the watermark is not zero or nothing was ever recorded. */
  lemma LoadRestoresSave(b: BrokerState, s: Snapshot)
    requires Indexed(b) && StoredByOid(b) && SnapshotOf(s, b)
    ensures Load(Some(s), b.registry) == Ok(Reloaded(b))
    ensures Load(Some(s), b.registry) == Ok(b) <==> b.applied != 0 || b.sequence == 0
  {
    hide Collected, Indexed, StoredByOid;
    CollectedRestores(b);
  }

  ghost predicate IndexedBy(keys: seq<string>, store: map<string, MimInstance>) {
    && (forall k :: k in keys <==> k in store)
    && (forall i, j :: 0 <= i < j < |keys| ==> keys[i] != keys[j])
    && (forall k :: k in store ==> store[k].oid == k)
  }

  lemma OneMoreIsIndexed(keys: seq<string>, store: map<string, MimInstance>, i: MimInstance)
    requires IndexedBy(keys, store)
    ensures IndexedBy(if i.oid in store then keys else keys + [i.oid], store[i.oid := i])
  {
  }

  lemma {:induction false} CollectedIsIndexed(instances: seq<MimInstance>)
    ensures IndexedBy(Collected(instances).0, Collected(instances).1)
  {
    hide IndexedBy;
    if instances == [] {
      assert IndexedBy([], map[]) by { NothingIsIndexed(); }
    } else {
      var before := Collected(instances[..|instances| - 1]);
      CollectedIsIndexed(instances[..|instances| - 1]);
      OneMoreIsIndexed(before.0, before.1, instances[|instances| - 1]);
    }
  }

  lemma NothingIsIndexed()
    ensures IndexedBy([], map[])
  {
  }

  lemma LoadedIsIndexed(file: Option<Snapshot>, registry: Registry)
    ensures var r := Load(file, registry); r.Ok? ==> Indexed(r.value) && StoredByOid(r.value)
  {
    hide Collected;
    if file.Some? {
      CollectedIsIndexed(file.value.instances);
    }
  }

  lemma WrittenIsIndexed(b: BrokerState, w: Write)
    requires Indexed(b) && StoredByOid(b)
    ensures Indexed(Perform(b, w)) && StoredByOid(Perform(b, w))
  {
  }

  lemma {:induction false} RunIsIndexed(b: BrokerState, ws: seq<Write>)
    requires Indexed(b) && StoredByOid(b)
    ensures Indexed(Run(b, ws)) && StoredByOid(Run(b, ws))
    decreases |ws|
  {
    hide Indexed, StoredByOid, Perform;
    if ws == [] {
    } else {
      WrittenIsIndexed(b, ws[0]);
      RunIsIndexed(Perform(b, ws[0]), ws[1..]);
    }
  }

  /** Saving and loading are defined for every broker there can be: one loaded from any snapshot, consistent or not, and
      then written to, comes back from a save exactly under the same condition. */
  lemma LoadedBrokerSurvivesSave(file: Option<Snapshot>, registry: Registry, ws: seq<Write>, s: Snapshot)
    requires Load(file, registry).Ok?
    requires Indexed(Run(Load(file, registry).value, ws)) && SnapshotOf(s, Run(Load(file, registry).value, ws))
    ensures var b := Run(Load(file, registry).value, ws);
      Load(Some(s), b.registry) == Ok(b) <==> b.applied != 0 || b.sequence == 0
  {
    hide Load, SnapshotOf;
    LoadedIsIndexed(file, registry);
    RunIsIndexed(Load(file, registry).value, ws);
    LoadRestoresSave(Run(Load(file, registry).value, ws), s);
  }

  /** What a load makes of any file: a new broker without one; an error when the snapshot is of another model version;
      and otherwise what the snapshot says, where of several instances of an object the last counts, in the place of the
      first. */
  lemma LoadExactly(file: Option<Snapshot>, registry: Registry, oid: string)
    ensures var r := Load(file, registry);
      match file
      case None => r == Ok(New(registry))
      case Some(s) =>
        if s.modelVersion != registry.version then r == Err(TransportError.Validation)
        else && r.Ok? && r.value.registry == registry
             && r.value.journal == s.journal && r.value.sequence == s.sequence
             && r.value.applied == (if s.applied == 0 then s.sequence else s.applied)
             && (oid in r.value.inactive <==> oid in s.inactive)
             && (oid in r.value.store <==> exists i :: i in s.instances && i.oid == oid)
             && (oid in r.value.store ==> IsLast(s.instances, r.value.store[oid]))
             && KeysInOrder(s.instances, r.value.keys)
  {
    if file.Some? {
      CollectedExactly(file.value.instances, oid);
      CollectedInOrder(file.value.instances);
    }
  }

  /** The last instance of its object in the list. */
  ghost predicate IsLast(instances: seq<MimInstance>, i: MimInstance) {
    exists k :: 0 <= k < |instances| && instances[k] == i && forall l :: k < l < |instances| ==>
        instances[l].oid != i.oid
  }

  /** The objects in the order in which the list first mentions them. */
  ghost predicate KeysInOrder(instances: seq<MimInstance>, keys: seq<string>) {
    && (forall oid :: oid in keys <==> FirstPlace(instances, oid) < |instances|)
    && (forall i, j :: 0 <= i < j < |keys| ==> FirstPlace(instances, keys[i]) < FirstPlace(instances, keys[j]))
  }

  /** Where an object is first mentioned, or the length of the list. */
  ghost function FirstPlace(instances: seq<MimInstance>, oid: string): (k: nat)
    ensures k <= |instances|
    ensures k < |instances| ==> instances[k].oid == oid
    ensures forall l :: 0 <= l < k ==> instances[l].oid != oid
  {
    if instances == [] || instances[0].oid == oid then 0 else 1 + FirstPlace(instances[1..], oid)
  }

  lemma CollectOneMore(before: seq<MimInstance>, last: MimInstance)
    ensures Collected(before + [last]).1 == Collected(before).1[last.oid := last]
  {
    assert (before + [last])[..|before|] == before;
  }

  lemma NothingCollected()
    ensures Collected([]).1 == map[]
  {
  }

  lemma LastOfOneMore(before: seq<MimInstance>, last: MimInstance, i: MimInstance)
    ensures i == last || (IsLast(before, i) && i.oid != last.oid) ==> IsLast(before + [last], i)
  {
    var all := before + [last];
    assert all[|before|] == last;
    if i != last && i.oid != last.oid && IsLast(before, i) {
      var k :| 0 <= k < |before| && before[k] == i && forall l :: k < l < |before| ==> before[l].oid != i.oid;
      assert all[k] == i;
    }
  }

  lemma {:induction false} CollectedExactly(instances: seq<MimInstance>, oid: string)
    ensures var store := Collected(instances).1;
      && (oid in store <==> exists i :: i in instances && i.oid == oid)
      && (oid in store ==> store[oid].oid == oid && IsLast(instances, store[oid]))
  {
    hide Collected, IsLast;
    if instances == [] {
      NothingCollected();
    } else {
      var before, last := instances[..|instances| - 1], instances[|instances| - 1];
      assert instances == before + [last];
      CollectedExactly(before, oid);
      CollectOneMore(before, last);
      var store := Collected(before).1;
      LastOfOneMore(before, last, if oid in store && oid != last.oid then store[oid] else last);
    }
  }

  lemma FirstPlaceExtends(before: seq<MimInstance>, last: MimInstance, oid: string)
    ensures FirstPlace(before + [last], oid) ==
      if FirstPlace(before, oid) < |before| then FirstPlace(before, oid)
      else if last.oid == oid then |before| else |before| + 1
  {
    var all, k := before + [last], FirstPlace(before, oid);
    assert all[|before|] == last && forall l :: 0 <= l < |before| ==> all[l] == before[l];
    var n := FirstPlace(all, oid);
    if k < |before| {
      assert all[k].oid == oid;
    }
  }

  lemma OneMoreInOrder(before: seq<MimInstance>, last: MimInstance, keys: seq<string>)
    requires KeysInOrder(before, keys)
    ensures KeysInOrder(before + [last], if last.oid in keys then keys else keys + [last.oid])
  {
    hide FirstPlace;
    forall oid: string
      ensures FirstPlace(before + [last], oid) ==
              if FirstPlace(before, oid) < |before| then FirstPlace(before, oid)
              else if last.oid == oid then |before| else |before| + 1
    {
      FirstPlaceExtends(before, last, oid);
    }
    assert forall i :: 0 <= i < |keys| ==> keys[i] in keys;
  }

  lemma {:induction false} CollectedInOrder(instances: seq<MimInstance>)
    ensures KeysInOrder(instances, Collected(instances).0)
  {
    hide KeysInOrder;
    if instances == [] {
      NothingInOrder();
    } else {
      var before, last := instances[..|instances| - 1], instances[|instances| - 1];
      CollectedInOrder(before);
      CollectedIsIndexed(before);
      OneMoreInOrder(before, last, Collected(before).0);
      assert instances == before + [last];
    }
  }

  lemma NothingInOrder()
    ensures KeysInOrder([], [])
  {
  }

  /** A snapshot whose counter is at the end: what is written after loading it reaches nobody who has its position. */
  lemma SaturatedSnapshotHidesWrites(registry: Registry, i: MimInstance)
    requires registry.valid(i)
    ensures var b := Load(Some(Snapshot(registry.version, [], [], [], U64_MAX, U64_MAX)), registry);
      b.Ok? && Put(b.value, i).Active(i.oid) && SyncSince(Put(b.value, i), b.value.sequence) == []
  {
    var b := Load(Some(Snapshot(registry.version, [], [], [], U64_MAX, U64_MAX)), registry);
    NextWriteIsSeenExactly(b.value, i);
  }

  /** The snapshot file of one exchange store. */
  class FileExchangeStore {
    var file: Option<Snapshot>

    constructor ()
      ensures file == None
    {
      file := None;
    }

    method Save(broker: ExchangeBroker)
      requires Indexed(broker.State())
      modifies this
      ensures file.Some? && SnapshotOf(file.value, broker.State())
      ensures |file.value.inactive| == |broker.inactive|
    {
      var instances: seq<MimInstance> := [];
      for n := 0 to |broker.keys|
        invariant instances == Values(broker.State())[..n]
      {
        instances := instances + [broker.store[broker.keys[n]]];
        assert Values(broker.State())[..n + 1] == Values(broker.State())[..n] + [broker.store[broker.keys[n]]];
      }
      var oids: seq<string> := [];
      var rest := broker.inactive;
      while rest != {}
        invariant rest <= broker.inactive
        invariant (set oid | oid in oids) == broker.inactive - rest
        invariant |oids| + |rest| == |broker.inactive|
      {
        var oid :| oid in rest;
        assert (set x | x in oids + [oid]) == (set x | x in oids) + {oid};
        oids := oids + [oid];
        rest := rest - {oid};
      }
      file := Some(Snapshot(broker.registry.version, instances, oids, broker.journal, broker.sequence, broker.applied));
    }

    method LoadBroker(registry: Registry) returns (r: Result<ExchangeBroker, TransportError>)
      ensures match Load(file, registry)
              case Ok(state) => r.Ok? && fresh(r.value) && r.value.State() == state
              case Err(e) => r == Err(e)
    {
      if file.None? {
        var blank := new ExchangeBroker(registry);
        return Ok(blank);
      }
      var s := file.value;
      if s.modelVersion != registry.version {
        return Err(Validation);
      }
      var broker := new ExchangeBroker.FromSnapshot(registry, s.instances, s.inactive, s.journal, s.sequence,
                                                    LoadedWatermark(s.sequence, s.applied));
      return Ok(broker);
    }
  }
}
