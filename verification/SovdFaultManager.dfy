/** The diagnostic side of the manager: list, read and delete faults by path and code. */
module SovdFaultManager {
  import opened Basics
  import opened Faults
  import opened Aging
  import opened StorageKeys
  import opened Storage
  import opened SovdCodes
  import opened SovdFaults

  /** A catalog stores each descriptor under its own identifier. */
  predicate KeyedById(registry: CatalogRegistry) {
    forall path, id :: path in registry && id in registry[path] ==> registry[path][id].id == id
  }

  /** In a listing, a fault without a stored record reads as clear, and so does an unreadable one. */
  function ListedState(kvs: Kvs, k: FaultKey): SovdFaultState {
    var loaded := Loaded(kvs, k);
    if loaded.Ok? then loaded.value.GetOr(DEFAULT_STATE) else DEFAULT_STATE
  }

  function FaultView(registry: CatalogRegistry, kvs: Kvs, path: string, id: FaultId): SovdFault
    requires path in registry && id in registry[path]
  {
    NewSovdFault(registry[path][id], ListedState(kvs, FaultKey(path, id)))
  }

  /** What a tool gets when it asks a path for a code; here an unreadable record is an error. */
  function FaultAt(registry: CatalogRegistry, kvs: Kvs, path: string, code: string): Result<(SovdFault, EnvData), SovdError> {
    if path !in registry then Err(BadArgument)
    else
      var id := FaultIdFromCode(code);
      if id.Err? then Err(id.error)
      else if id.value !in registry[path] then Err(SovdError.NotFound)
      else
        var loaded := Loaded(kvs, FaultKey(path, id.value));
        if loaded.Err? then Err(StorageFailed(loaded.error))
        else Ok((FaultView(registry, kvs, path, id.value), loaded.value.GetOr(DEFAULT_STATE).envData))
  }

  /** The stored state of the fault, or clear if there is none. */
  ghost predicate ShowsStored(f: SovdFault, contents: map<FaultKey, SovdFaultState>, k: FaultKey) {
    if k in contents then ShowsState(f, contents[k]) else ShowsClear(f)
  }

  /** The environment of a fault's last failure; a fault without a stored state has none. */
  function EnvOf(contents: map<FaultKey, SovdFaultState>, k: FaultKey): EnvData {
    if k in contents then contents[k].envData else map[]
  }

  lemma ViewShows(registry: CatalogRegistry, kvs: Kvs, contents: map<FaultKey, SovdFaultState>, path: string, id: FaultId)
    requires path in registry && id in registry[path]
    ensures ShowsDescriptor(FaultView(registry, kvs, path, id), registry[path][id])
    ensures Represents(kvs, contents) ==> ShowsStored(FaultView(registry, kvs, path, id), contents, FaultKey(path, id))
    ensures Loaded(kvs, FaultKey(path, id)).Err? ==> ShowsClear(FaultView(registry, kvs, path, id))
  {
    var d := registry[path][id];
    NewFaultShows(d, ListedState(kvs, FaultKey(path, id)));
    DefaultShowsClear(d);
    if Represents(kvs, contents) {
      RepresentedLoads(kvs, contents, FaultKey(path, id));
    }
  }

  predicate AllIn(order: seq<FaultId>, catalog: Catalog) {
    forall i :: 0 <= i < |order| ==> order[i] in catalog
  }

  function Views(registry: CatalogRegistry, kvs: Kvs, path: string, order: seq<FaultId>)
    : (views: seq<SovdFault>)
    requires path in registry && AllIn(order, registry[path])
    ensures |views| == |order|
  {
    if order == [] then []
    else
      var n := |order| - 1;
      Views(registry, kvs, path, order[..n]) + [FaultView(registry, kvs, path, order[n])]
  }

  lemma {:induction false} ViewsAt(registry: CatalogRegistry, kvs: Kvs, path: string,
                                   order: seq<FaultId>, i: nat)
    requires path in registry && AllIn(order, registry[path]) && i < |order|
    ensures Views(registry, kvs, path, order)[i] == FaultView(registry, kvs, path, order[i])
  {
    if i < |order| - 1 {
      ViewsAt(registry, kvs, path, order[..|order| - 1], i);
    }
  }

  lemma ViewsNext(registry: CatalogRegistry, kvs: Kvs, path: string, order: seq<FaultId>, i: nat)
    requires path in registry && AllIn(order, registry[path]) && i < |order|
    ensures Views(registry, kvs, path, order[..i + 1])
            == Views(registry, kvs, path, order[..i]) + [FaultView(registry, kvs, path, order[i])]
  {
    assert order[..i + 1][..i] == order[..i];
  }

  /** Each identifier of the catalog, once, in some order. */
  predicate ListsEach(order: seq<FaultId>, catalog: Catalog) {
    && AllIn(order, catalog)
    && (forall id :: id in catalog ==> id in order)
    && (forall i, j :: 0 <= i < j < |order| ==> order[i] != order[j])
  }

  /**
   Each listed fault shows its descriptor and, in a valid store, what is stored for it; an entry that
   cannot be read shows as clear.
   */
  ghost predicate ShowsEach(catalog: Catalog, kvs: Kvs, contents: map<FaultKey, SovdFaultState>, path: string,
                            order: seq<FaultId>, faults: seq<SovdFault>)
    requires AllIn(order, catalog)
  {
    && |faults| == |order|
    && (forall i :: 0 <= i < |order| ==> ShowsDescriptor(faults[i], catalog[order[i]]))
    && (Represents(kvs, contents) ==>
          forall i :: 0 <= i < |order| ==> ShowsStored(faults[i], contents, FaultKey(path, order[i])))
    && (forall i :: 0 <= i < |order| && Loaded(kvs, FaultKey(path, order[i])).Err? ==> ShowsClear(faults[i]))
  }

  lemma ViewsShow(registry: CatalogRegistry, kvs: Kvs, contents: map<FaultKey, SovdFaultState>, path: string, order: seq<FaultId>)
    requires path in registry && AllIn(order, registry[path])
    ensures ShowsEach(registry[path], kvs, contents, path, order, Views(registry, kvs, path, order))
  {
    forall i | 0 <= i < |order|
      ensures var f := Views(registry, kvs, path, order)[i];
              && ShowsDescriptor(f, registry[path][order[i]])
              && (Represents(kvs, contents) ==> ShowsStored(f, contents, FaultKey(path, order[i])))
              && (Loaded(kvs, FaultKey(path, order[i])).Err? ==> ShowsClear(f))
    {
      ViewsAt(registry, kvs, path, order, i);
      ViewShows(registry, kvs, contents, path, order[i]);
    }
  }

  /** The catalog in the order its map hands it out. */
  method Identifiers(catalog: Catalog) returns (order: seq<FaultId>)
    ensures ListsEach(order, catalog)
  {
    order := [];
    var ids := catalog.Keys;
    while ids != {}
      invariant ids <= catalog.Keys
      invariant AllIn(order, catalog)
      invariant forall id :: id in catalog ==> (id in ids <==> id !in order)
      invariant forall i, j :: 0 <= i < j < |order| ==> order[i] != order[j]
      decreases ids
    {
      var id :| id in ids;
      order := order + [id];
      ids := ids - {id};
    }
  }

  class SovdFaultManager {
    const storage: KvsStorage
    const registry: CatalogRegistry

    ghost predicate Valid()
      reads storage
    {
      storage.Valid() && KeyedById(registry)
    }

    constructor (storage: KvsStorage, registry: CatalogRegistry)
      requires storage.Valid() && KeyedById(registry)
      ensures Valid() && this.storage == storage && this.registry == registry
    {
      this.storage := storage;
      this.registry := registry;
    }

    method Describe(path: string, id: FaultId) returns (fault: SovdFault)
      requires KeyedById(registry) && path in registry && id in registry[path]
      ensures fault == FaultView(registry, storage.kvs, path, id)
    {
      var descriptor := registry[path][id];
      var loaded := storage.Get(path, descriptor.id);
      var state := if loaded.Ok? && loaded.value.Some? then loaded.value.value else DEFAULT_STATE;
      fault := NewSovdFault(descriptor, state);
    }

    /** Every registered fault is listed once, whatever its state. */
    method GetAllFaults(path: string) returns (r: Result<seq<SovdFault>, SovdError>, ghost order: seq<FaultId>)
      requires KeyedById(registry)
      ensures r.Ok? <==> path in registry
      ensures r.Err? ==> r.error == BadArgument
      ensures r.Ok? ==> ListsEach(order, registry[path]) && r.value == Views(registry, storage.kvs, path, order)
      ensures r.Ok? ==> ShowsEach(registry[path], storage.kvs, storage.contents, path, order, r.value)
    {
      if path !in registry {
        return Err(BadArgument), [];
      }
      var ids := Identifiers(registry[path]);
      var faults := [];
      for i := 0 to |ids|
        invariant faults == Views(registry, storage.kvs, path, ids[..i])
      {
        var fault := Describe(path, ids[i]);
        ViewsNext(registry, storage.kvs, path, ids, i);
        faults := faults + [fault];
      }
      assert ids[..|ids|] == ids;
      ViewsShow(registry, storage.kvs, storage.contents, path, ids);
      return Ok(faults), ids;
    }

    method GetFault(path: string, code: string) returns (r: Result<(SovdFault, EnvData), SovdError>)
      requires KeyedById(registry)
      ensures r == FaultAt(registry, storage.kvs, path, code)
      ensures path !in registry || FaultIdFromCode(code).Err? ==> r == Err(BadArgument)
      ensures path in registry && FaultIdFromCode(code).Ok? ==>
                var id := FaultIdFromCode(code).value;
                && (id !in registry[path] ==> r == Err(SovdError.NotFound))
                && (id in registry[path] ==>
                      && (r.Err? <==> Loaded(storage.kvs, FaultKey(path, id)).Err?)
                      && (r.Err? ==> r.error.StorageFailed?)
                      && (storage.Valid() ==> (
                            && r.Ok? && ShowsStored(r.value.0, storage.contents, FaultKey(path, id))
                            && r.value.1 == EnvOf(storage.contents, FaultKey(path, id))))
                      && (r.Ok? ==> ShowsDescriptor(r.value.0, registry[path][id])))
    {
      if path !in registry {
        return Err(BadArgument);
      }
      var id := FaultIdFromCode(code);
      if id.Err? {
        return Err(id.error);
      }
      if id.value !in registry[path] {
        return Err(SovdError.NotFound);
      }
      ViewShows(registry, storage.kvs, storage.contents, path, id.value);
      var loaded := storage.Get(path, id.value);
      if loaded.Err? {
        return Err(StorageFailed(loaded.error));
      }
      var state := loaded.value.GetOr(DEFAULT_STATE);
      r := Ok((NewSovdFault(registry[path][id.value], state), state.envData));
    }

    method DeleteAllFaults(path: string) returns (r: Result<(), SovdError>)
      requires Valid()
      modifies storage
      ensures Valid()
      ensures path == "" ==> r == Err(BadArgument) && storage.contents == old(storage.contents)
      ensures path != "" ==> storage.contents == WithoutPath(old(storage.contents), path)
      ensures storage.kvs == if path == "" then old(storage.kvs) else old(storage.kvs) - {path}
      ensures path != "" ==> (r.Ok? <==> path in old(storage.kvs)) && (r.Err? ==> r.error.StorageFailed?)
      ensures r.Err? ==> storage.contents == old(storage.contents)
    {
      if path == "" {
        return Err(BadArgument);
      }
      var deleted := storage.DeleteAll(path);
      r := if deleted.Ok? then Ok(()) else Err(StorageFailed(deleted.error));
    }

    /** Succeeds exactly if the code names a stored fault of the path, and removes that one. */
    method DeleteFault(path: string, code: string) returns (r: Result<(), SovdError>)
      requires Valid()
      modifies storage
      ensures Valid()
      ensures r.Ok? <==>
              path != "" && code != "" && FaultIdFromCode(code).Ok?
              && FaultKey(path, FaultIdFromCode(code).value) in old(storage.contents)
      ensures r.Ok? ==> storage.contents == old(storage.contents) - {FaultKey(path, FaultIdFromCode(code).value)}
      ensures r.Err? ==> storage.contents == old(storage.contents)
      ensures storage.kvs == if r.Ok? then RemoveEntry(old(storage.kvs), FaultKey(path, FaultIdFromCode(code).value))
                             else old(storage.kvs)
      ensures path == "" || code == "" || FaultIdFromCode(code).Err? ==> r == Err(BadArgument)
      ensures path != "" && code != "" && FaultIdFromCode(code).Ok? && r.Err? ==>
                if path in old(storage.kvs) then r.error == SovdError.NotFound else r.error.StorageFailed?
    {
      if path == "" || code == "" {
        return Err(BadArgument);
      }
      var id := FaultIdFromCode(code);
      if id.Err? {
        return Err(id.error);
      }
      var deleted := storage.Delete(path, id.value);
      match deleted
      case Ok(_) => r := Ok(());
      case Err(e) => r := Err(if e.NotFound? then SovdError.NotFound else StorageFailed(e));
    }
  }

  /**
   The code shown in a listing leads back to the fault it was listed for, in the same state, unless
   the record cannot be read or the identifier is a text that reads as a number or a UUID.
   */
  lemma ListedFaultIsFound(registry: CatalogRegistry, kvs: Kvs, contents: map<FaultKey, SovdFaultState>, path: string, id: FaultId)
    requires KeyedById(registry) && path in registry && id in registry[path]
    requires id.Text? ==> !TextIsAmbiguous(id.text)
    ensures var shown := FaultView(registry, kvs, path, id);
            var loaded := Loaded(kvs, FaultKey(path, id));
            FaultAt(registry, kvs, path, shown.code)
            == if loaded.Ok? then Ok((shown, loaded.value.GetOr(DEFAULT_STATE).envData)) else Err(StorageFailed(loaded.error))
    ensures Represents(kvs, contents) ==>
              ShowsStored(FaultView(registry, kvs, path, id), contents, FaultKey(path, id))
              && FaultAt(registry, kvs, path, FaultView(registry, kvs, path, id).code)
                 == Ok((FaultView(registry, kvs, path, id), EnvOf(contents, FaultKey(path, id))))
  {
    CodeRoundTrip(id);
    ViewShows(registry, kvs, contents, path, id);
    if Represents(kvs, contents) {
      RepresentedLoads(kvs, contents, FaultKey(path, id));
    }
  }

  /** An ambiguous text is never reached: whatever is stored for it, no code shows it. */
  lemma AmbiguousFaultIsNeverRead(registry: CatalogRegistry, kvs: Kvs, kvs': Kvs, path: string, code: string, t: ShortString)
    requires TextIsAmbiguous(t)
    requires forall k :: k != FaultKey(path, Text(t)) ==> Entry(kvs, k) == Entry(kvs', k)
    ensures FaultAt(registry, kvs, path, code) == FaultAt(registry, kvs', path, code)
  {
    CodesReach(Text(t));
    CodeRoundTrip(Text(t));
    if FaultIdFromCode(code).Ok? && path in registry {
      var id := FaultIdFromCode(code).value;
      assert id != Text(t);
      assert Entry(kvs, FaultKey(path, id)) == Entry(kvs', FaultKey(path, id));
    }
  }

  /** After deletion the fault reads as clear, and every other fault as before. */
  lemma DeletedFaultReadsClear(registry: CatalogRegistry, kvs: Kvs, path: string, id: FaultId, path': string, id': FaultId)
    requires path in kvs && path' in registry && id' in registry[path']
    ensures FaultView(registry, kvs[path := kvs[path] - {FaultIdToKey(id)}], path', id') ==
            if (path', id') == (path, id) then NewSovdFault(registry[path][id], DEFAULT_STATE)
            else FaultView(registry, kvs, path', id')
    ensures (path', id') == (path, id) ==> ShowsClear(FaultView(registry, kvs[path := kvs[path] - {FaultIdToKey(id)}], path', id'))
  {
    DefaultShowsClear(registry[path'][id']);
    EntryAfterRemove(kvs, path, id, FaultKey(path', id'));
  }
}
