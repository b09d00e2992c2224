/** Persistent fault states: their serialised form and the nested string-keyed store. */
module Storage {
  import opened Basics
  import opened Faults
  import opened Aging
  import opened StorageKeys

  datatype FaultKey = FaultKey(source: string, faultId: FaultId)

  datatype KvsValue =
    | KvsBool(b: bool) | KvsI64(i: I64) | KvsString(s: string) | KvsObject(fields: map<string, KvsValue>) | KvsNull

  type KvsMap = map<string, KvsValue>

  // ---------------------------------------------------------------- serialisation

  function EnvToKvs(env: EnvData): KvsMap {
    map k | k in env :: KvsString(env[k])
  }

  function ToKvs(state: SovdFaultState): Result<KvsValue, StorageError> {
    if state.firstOccurrenceSecs > I64_MAX || state.lastOccurrenceSecs > I64_MAX
    then Err(Serialization("occurrence time out of i64 range"))
    else Ok(KvsObject(map[
      "test_failed" := KvsBool(state.testFailed),
      "test_failed_this_operation_cycle" := KvsBool(state.testFailedThisOperationCycle),
      "test_failed_since_last_clear" := KvsBool(state.testFailedSinceLastClear),
      "test_not_completed_this_operation_cycle" := KvsBool(state.testNotCompletedThisOperationCycle),
      "test_not_completed_since_last_clear" := KvsBool(state.testNotCompletedSinceLastClear),
      "pending_dtc" := KvsBool(state.pendingDtc),
      "confirmed_dtc" := KvsBool(state.confirmedDtc),
      "warning_indicator_requested" := KvsBool(state.warningIndicatorRequested),
      "env_data" := KvsObject(EnvToKvs(state.envData)),
      "occurrence_counter" := KvsI64(state.occurrenceCounter),
      "aging_counter" := KvsI64(state.agingCounter),
      "healing_counter" := KvsI64(state.healingCounter),
      "first_occurrence_secs" := KvsI64(state.firstOccurrenceSecs),
      "last_occurrence_secs" := KvsI64(state.lastOccurrenceSecs)]))
  }

  function GetBool(m: KvsMap, key: string): Option<bool> {
    if key in m && m[key].KvsBool? then Some(m[key].b) else None
  }

  /** A missing counter reads as 0: stores written before the field existed stay readable. */
  function GetUnsigned(m: KvsMap, key: string, max: nat): Option<nat> {
    if key !in m then Some(0)
    else if m[key].KvsI64? && 0 <= m[key].i <= max then Some(m[key].i)
    else None
  }

  function EnvFromKvs(m: KvsMap): Option<EnvData> {
    if forall k :: k in m ==> m[k].KvsString? then Some(map k | k in m :: m[k].s) else None
  }

  function FromKvs(v: KvsValue): Result<SovdFaultState, StorageError> {
    if !v.KvsObject? then Err(Deserialization("expected an object"))
    else
      var m := v.fields;
      var env := if "env_data" in m && m["env_data"].KvsObject? then EnvFromKvs(m["env_data"].fields) else None;
      var tf := GetBool(m, "test_failed");
      var tftoc := GetBool(m, "test_failed_this_operation_cycle");
      var tfslc := GetBool(m, "test_failed_since_last_clear");
      var tnctoc := GetBool(m, "test_not_completed_this_operation_cycle");
      var tncslc := GetBool(m, "test_not_completed_since_last_clear");
      var pending := GetBool(m, "pending_dtc");
      var confirmed := GetBool(m, "confirmed_dtc");
      var warning := GetBool(m, "warning_indicator_requested");
      var occurrences := GetUnsigned(m, "occurrence_counter", U32_MAX);
      var agings := GetUnsigned(m, "aging_counter", U32_MAX);
      var healings := GetUnsigned(m, "healing_counter", U32_MAX);
      var first := GetUnsigned(m, "first_occurrence_secs", U64_MAX);
      var last := GetUnsigned(m, "last_occurrence_secs", U64_MAX);
      if env.None? || tf.None? || tftoc.None? || tfslc.None? || tnctoc.None? || tncslc.None? || pending.None?
         || confirmed.None? || warning.None? || occurrences.None? || agings.None? || healings.None?
         || first.None? || last.None?
      then Err(Deserialization("missing or malformed field"))
      else Ok(SovdFaultState(tf.value, tftoc.value, tfslc.value, tnctoc.value, tncslc.value, pending.value,
                             confirmed.value, warning.value, env.value, occurrences.value, agings.value,
                             healings.value, first.value, last.value))
  }

  lemma EnvRoundTrip(env: EnvData)
    ensures EnvFromKvs(EnvToKvs(env)) == Some(env)
  {
    var m := EnvToKvs(env);
    assert (map k | k in m :: m[k].s) == env;
  }

  predicate EncodesFailedFlags(m: KvsMap, state: SovdFaultState) {
    && GetBool(m, "test_failed") == Some(state.testFailed)
    && GetBool(m, "test_failed_this_operation_cycle") == Some(state.testFailedThisOperationCycle)
    && GetBool(m, "test_failed_since_last_clear") == Some(state.testFailedSinceLastClear)
  }

  predicate EncodesNotCompletedFlags(m: KvsMap, state: SovdFaultState) {
    && GetBool(m, "test_not_completed_this_operation_cycle") == Some(state.testNotCompletedThisOperationCycle)
    && GetBool(m, "test_not_completed_since_last_clear") == Some(state.testNotCompletedSinceLastClear)
  }

  predicate EncodesDtcFlags(m: KvsMap, state: SovdFaultState) {
    && GetBool(m, "pending_dtc") == Some(state.pendingDtc)
    && GetBool(m, "confirmed_dtc") == Some(state.confirmedDtc)
    && GetBool(m, "warning_indicator_requested") == Some(state.warningIndicatorRequested)
  }

  predicate EncodesCounters(m: KvsMap, state: SovdFaultState) {
    && "env_data" in m && m["env_data"] == KvsObject(EnvToKvs(state.envData))
    && GetUnsigned(m, "occurrence_counter", U32_MAX) == Some(state.occurrenceCounter)
    && GetUnsigned(m, "aging_counter", U32_MAX) == Some(state.agingCounter)
    && GetUnsigned(m, "healing_counter", U32_MAX) == Some(state.healingCounter)
    && GetUnsigned(m, "first_occurrence_secs", U64_MAX) == Some(state.firstOccurrenceSecs)
    && GetUnsigned(m, "last_occurrence_secs", U64_MAX) == Some(state.lastOccurrenceSecs)
  }

  lemma ToKvsEncodesTestFailed(state: SovdFaultState)
    requires ToKvs(state).Ok?
    ensures GetBool(ToKvs(state).value.fields, "test_failed") == Some(state.testFailed)
  {
  }

  lemma ToKvsEncodesFailedThisCycle(state: SovdFaultState)
    requires ToKvs(state).Ok?
    ensures GetBool(ToKvs(state).value.fields, "test_failed_this_operation_cycle") == Some(state.testFailedThisOperationCycle)
  {
  }

  lemma ToKvsEncodesFailedSinceClear(state: SovdFaultState)
    requires ToKvs(state).Ok?
    ensures GetBool(ToKvs(state).value.fields, "test_failed_since_last_clear") == Some(state.testFailedSinceLastClear)
  {
  }

  lemma ToKvsEncodesNotCompletedFlags(state: SovdFaultState)
    requires ToKvs(state).Ok?
    ensures EncodesNotCompletedFlags(ToKvs(state).value.fields, state)
  {
  }

  lemma ToKvsEncodesDtcFlags(state: SovdFaultState)
    requires ToKvs(state).Ok?
    ensures EncodesDtcFlags(ToKvs(state).value.fields, state)
  {
  }

  lemma ToKvsEncodesCounters(state: SovdFaultState)
    requires ToKvs(state).Ok?
    ensures EncodesCounters(ToKvs(state).value.fields, state)
  {
  }

  lemma FromKvsOfEncoding(m: KvsMap, state: SovdFaultState)
    requires EncodesFailedFlags(m, state) && EncodesNotCompletedFlags(m, state)
    requires EncodesDtcFlags(m, state) && EncodesCounters(m, state)
    ensures FromKvs(KvsObject(m)) == Ok(state)
  {
    EnvRoundTrip(state.envData);
  }

  /** Reading back what was written gives the same state; only a time past `i64` cannot be written. */
  lemma KvsRoundTrip(state: SovdFaultState)
    ensures ToKvs(state).Ok? <==> state.firstOccurrenceSecs <= I64_MAX && state.lastOccurrenceSecs <= I64_MAX
    ensures ToKvs(state).Ok? ==> FromKvs(ToKvs(state).value) == Ok(state)
  {
    if ToKvs(state).Ok? {
      ToKvsEncodesTestFailed(state);
      ToKvsEncodesFailedThisCycle(state);
      ToKvsEncodesFailedSinceClear(state);
      ToKvsEncodesNotCompletedFlags(state);
      ToKvsEncodesDtcFlags(state);
      ToKvsEncodesCounters(state);
      FromKvsOfEncoding(ToKvs(state).value.fields, state);
    }
  }

  /** A value reads as a state exactly if it is an object that holds each of its fields. */
  lemma ReadsExactly(v: KvsValue, state: SovdFaultState)
    ensures FromKvs(v) == Ok(state) <==>
            (&& v.KvsObject?
             && EncodesFailedFlags(v.fields, state) && EncodesNotCompletedFlags(v.fields, state)
             && EncodesDtcFlags(v.fields, state) && EncodesCounters(v.fields, state))
  {
    if FromKvs(v) == Ok(state) {
      ReadHolds(v, state);
    }
    if v.KvsObject? && EncodesFailedFlags(v.fields, state) && EncodesNotCompletedFlags(v.fields, state)
       && EncodesDtcFlags(v.fields, state) && EncodesCounters(v.fields, state) {
      FromKvsOfEncoding(v.fields, state);
    }
  }

  lemma ReadHolds(v: KvsValue, state: SovdFaultState)
    requires FromKvs(v) == Ok(state)
    ensures v.KvsObject?
    ensures EncodesFailedFlags(v.fields, state) && EncodesNotCompletedFlags(v.fields, state)
    ensures EncodesDtcFlags(v.fields, state) && EncodesCounters(v.fields, state)
  {
    assert EnvToKvs(state.envData) == v.fields["env_data"].fields;
  }

  /** A store written before the counters existed stays readable, and they read as 0. */
  lemma OlderStoreReads(m: KvsMap, state: SovdFaultState)
    requires EncodesFailedFlags(m, state) && EncodesNotCompletedFlags(m, state) && EncodesDtcFlags(m, state)
    requires "env_data" in m && m["env_data"] == KvsObject(EnvToKvs(state.envData))
    requires "occurrence_counter" !in m && "aging_counter" !in m && "healing_counter" !in m
    requires "first_occurrence_secs" !in m && "last_occurrence_secs" !in m
    ensures FromKvs(KvsObject(m)) == Ok(state.(occurrenceCounter := 0, agingCounter := 0, healingCounter := 0,
                                               firstOccurrenceSecs := 0, lastOccurrenceSecs := 0))
  {
    FromKvsOfEncoding(m, state.(occurrenceCounter := 0, agingCounter := 0, healingCounter := 0,
                                firstOccurrenceSecs := 0, lastOccurrenceSecs := 0));
  }

  // ---------------------------------------------------------------- the store

  type Kvs = map<string, KvsMap>

  predicate Serializable(state: SovdFaultState) {
    state.firstOccurrenceSecs <= I64_MAX && state.lastOccurrenceSecs <= I64_MAX
  }

  /** The entry for a fault, if the store has one. */
  function Entry(kvs: Kvs, k: FaultKey): Option<KvsValue> {
    if k.source in kvs && FaultIdToKey(k.faultId) in kvs[k.source]
    then Some(kvs[k.source][FaultIdToKey(k.faultId)])
    else None
  }

  /** What reading one fault gives. */
  function Loaded(kvs: Kvs, k: FaultKey): Result<Option<SovdFaultState>, StorageError> {
    var entry := Entry(kvs, k);
    if entry.None? then Ok(None)
    else
      var state := FromKvs(entry.value);
      if state.Ok? then Ok(Some(state.value)) else Err(state.error)
  }

  /** A key that only `FaultIdToKey` could have written. */
  /** An entry that cannot be read is an error, not an absent one. */
  lemma UnreadableIsError(kvs: Kvs, k: FaultKey)
    ensures Loaded(kvs, k).Err? <==>
            k.source in kvs && FaultIdToKey(k.faultId) in kvs[k.source]
            && FromKvs(kvs[k.source][FaultIdToKey(k.faultId)]).Err?
    ensures Loaded(kvs, k) == Ok(None) <==> k.source !in kvs || FaultIdToKey(k.faultId) !in kvs[k.source]
  {
  }

  predicate IsTypedKey(key: string) {
    FaultIdFromKey(key).Ok? && FaultIdToKey(FaultIdFromKey(key).value) == key
  }

  const ENCODE: SovdFaultState -> KvsValue :=
    state => if ToKvs(state).Ok? then ToKvs(state).value else KvsNull

  /** The store and the map agree on one fault: both have it, in the same state, or neither has. */
  predicate Agrees(encode: SovdFaultState -> KvsValue, kvs: Kvs, contents: map<FaultKey, SovdFaultState>, k: FaultKey) {
    if k in contents then Serializable(contents[k]) && Entry(kvs, k) == Some(encode(contents[k]))
    else Entry(kvs, k) == None
  }

  predicate OnlyTypedKeys(kvs: Kvs) {
    forall p, key :: p in kvs && key in kvs[p] ==> IsTypedKey(key)
  }

  /** The nested string-keyed store stands for a map from (path, fault) to state, under an encoding. */
  ghost predicate RepresentsBy(encode: SovdFaultState -> KvsValue, kvs: Kvs, contents: map<FaultKey, SovdFaultState>) {
    (forall k :: Agrees(encode, kvs, contents, k)) && OnlyTypedKeys(kvs)
  }

  ghost predicate Represents(kvs: Kvs, contents: map<FaultKey, SovdFaultState>) {
    RepresentsBy(ENCODE, kvs, contents)
  }

  /** A store built by puts can be read everywhere, and reads as the map it stands for. */
  lemma RepresentedLoads(kvs: Kvs, contents: map<FaultKey, SovdFaultState>, k: FaultKey)
    requires Represents(kvs, contents)
    ensures Loaded(kvs, k) == Ok(if k in contents then Some(contents[k]) else None)
  {
    assert Agrees(ENCODE, kvs, contents, k);
    if k in contents {
      KvsRoundTrip(contents[k]);
    }
  }

  lemma KnownPath(kvs: Kvs, contents: map<FaultKey, SovdFaultState>, k: FaultKey)
    requires Represents(kvs, contents)
    ensures k in contents ==> k.source in kvs
  {
    assert Agrees(ENCODE, kvs, contents, k);
  }

  /** The store without one fault; its path stays known. */
  function RemoveEntry(kvs: Kvs, k: FaultKey): Kvs {
    if k.source in kvs then kvs[k.source := kvs[k.source] - {FaultIdToKey(k.faultId)}] else kvs
  }

  /** Two entries are the same entry only for the same path and fault. */
  lemma EntryAfterInsert(kvs: Kvs, path: string, id: FaultId, v: KvsValue, k: FaultKey)
    ensures var old' := if path in kvs then kvs[path] else map[];
            Entry(kvs[path := old'[FaultIdToKey(id) := v]], k)
            == if k == FaultKey(path, id) then Some(v) else Entry(kvs, k)
  {
    if k.source == path && FaultIdToKey(k.faultId) == FaultIdToKey(id) {
      KeysAreInjective(k.faultId, id);
    }
  }

  lemma EntryAfterRemove(kvs: Kvs, path: string, id: FaultId, k: FaultKey)
    requires path in kvs
    ensures Entry(kvs[path := kvs[path] - {FaultIdToKey(id)}], k)
            == if k == FaultKey(path, id) then None else Entry(kvs, k)
  {
    if k.source == path && FaultIdToKey(k.faultId) == FaultIdToKey(id) {
      KeysAreInjective(k.faultId, id);
    }
  }

  lemma RepresentsAfterPut(encode: SovdFaultState -> KvsValue, kvs: Kvs, contents: map<FaultKey, SovdFaultState>,
                           path: string, id: FaultId, state: SovdFaultState)
    requires RepresentsBy(encode, kvs, contents) && Serializable(state)
    ensures var states := if path in kvs then kvs[path] else map[];
            RepresentsBy(encode, kvs[path := states[FaultIdToKey(id) := encode(state)]],
                         contents[FaultKey(path, id) := state])
  {
    var states := if path in kvs then kvs[path] else map[];
    var kvs' := kvs[path := states[FaultIdToKey(id) := encode(state)]];
    var contents' := contents[FaultKey(path, id) := state];
    forall k
      ensures Agrees(encode, kvs', contents', k)
    {
      EntryAfterInsert(kvs, path, id, encode(state), k);
      assert Agrees(encode, kvs, contents, k);
    }
    KeyRoundTrip(id);
    assert OnlyTypedKeys(kvs');
  }

  lemma RepresentsAfterDelete(encode: SovdFaultState -> KvsValue, kvs: Kvs, contents: map<FaultKey, SovdFaultState>,
                              path: string, id: FaultId)
    requires RepresentsBy(encode, kvs, contents) && path in kvs
    ensures RepresentsBy(encode, kvs[path := kvs[path] - {FaultIdToKey(id)}], contents - {FaultKey(path, id)})
  {
    var kvs' := kvs[path := kvs[path] - {FaultIdToKey(id)}];
    var contents' := contents - {FaultKey(path, id)};
    forall k
      ensures Agrees(encode, kvs', contents', k)
    {
      EntryAfterRemove(kvs, path, id, k);
      assert Agrees(encode, kvs, contents, k);
    }
    assert OnlyTypedKeys(kvs');
  }

  /** What is left when every fault of a path is gone. */
  function WithoutPath(contents: map<FaultKey, SovdFaultState>, path: string): map<FaultKey, SovdFaultState> {
    map k | k in contents && k.source != path :: contents[k]
  }

  lemma RepresentsAfterDeleteAll(encode: SovdFaultState -> KvsValue, kvs: Kvs,
                                 contents: map<FaultKey, SovdFaultState>, path: string)
    requires RepresentsBy(encode, kvs, contents)
    ensures RepresentsBy(encode, kvs - {path}, WithoutPath(contents, path))
    ensures path !in kvs ==> WithoutPath(contents, path) == contents
  {
    forall k
      ensures Agrees(encode, kvs - {path}, WithoutPath(contents, path), k)
    {
      assert Agrees(encode, kvs, contents, k);
    }
    assert OnlyTypedKeys(kvs - {path});
    if path !in kvs {
      forall k | k in contents
        ensures k.source != path
      {
        assert Agrees(encode, kvs, contents, k);
      }
    }
  }

  // ---------------------------------------------------------------- listing a path

  function Decode(key: string, v: KvsValue): Result<(FaultId, SovdFaultState), StorageError> {
    var state := FromKvs(v);
    var id := FaultIdFromKey(key);
    if state.Err? then Err(state.error) else if id.Err? then Err(id.error) else Ok((id.value, state.value))
  }

  /** The keys of a map, each once. */
  predicate Enumerates(order: seq<string>, m: KvsMap) {
    && (forall i :: 0 <= i < |order| ==> order[i] in m)
    && (forall key :: key in m ==> key in order)
    && (forall i, j :: 0 <= i < j < |order| ==> order[i] != order[j])
  }

  predicate DecodesTo(m: KvsMap, order: seq<string>, list: seq<(FaultId, SovdFaultState)>) {
    && |list| == |order|
    && forall i :: 0 <= i < |order| ==> order[i] in m && Decode(order[i], m[order[i]]) == Ok(list[i])
  }

  /** A duplicate-free listing of exactly one path's faults. */
  ghost predicate Lists(contents: map<FaultKey, SovdFaultState>, path: string, list: seq<(FaultId, SovdFaultState)>) {
    && (forall i :: 0 <= i < |list| ==>
          FaultKey(path, list[i].0) in contents && list[i].1 == contents[FaultKey(path, list[i].0)])
    && (forall id :: FaultKey(path, id) in contents ==> exists i :: 0 <= i < |list| && list[i].0 == id)
    && (forall i, j :: 0 <= i < j < |list| ==> list[i].0 != list[j].0)
  }

  lemma EntryDecodes(kvs: Kvs, contents: map<FaultKey, SovdFaultState>, path: string, key: string)
    requires Represents(kvs, contents) && path in kvs && key in kvs[path]
    ensures var d := Decode(key, kvs[path][key]);
            d.Ok? && FaultIdToKey(d.value.0) == key
            && FaultKey(path, d.value.0) in contents && d.value.1 == contents[FaultKey(path, d.value.0)]
  {
    assert IsTypedKey(key);
    var k := FaultKey(path, FaultIdFromKey(key).value);
    assert Agrees(ENCODE, kvs, contents, k);
    KvsRoundTrip(contents[k]);
  }

  lemma DecodingLists(kvs: Kvs, contents: map<FaultKey, SovdFaultState>, path: string, order: seq<string>,
                      list: seq<(FaultId, SovdFaultState)>)
    requires Represents(kvs, contents) && path in kvs
    requires Enumerates(order, kvs[path]) && DecodesTo(kvs[path], order, list)
    ensures Lists(contents, path, list)
  {
    forall i | 0 <= i < |list|
      ensures FaultIdToKey(list[i].0) == order[i]
      ensures FaultKey(path, list[i].0) in contents && list[i].1 == contents[FaultKey(path, list[i].0)]
    {
      EntryDecodes(kvs, contents, path, order[i]);
    }
    forall id | FaultKey(path, id) in contents
      ensures exists i :: 0 <= i < |list| && list[i].0 == id
    {
      assert Agrees(ENCODE, kvs, contents, FaultKey(path, id));
      assert FaultIdToKey(id) in order;
      var i :| 0 <= i < |order| && order[i] == FaultIdToKey(id);
      KeysAreInjective(list[i].0, id);
    }
  }

  lemma UnknownPathLists(kvs: Kvs, contents: map<FaultKey, SovdFaultState>, path: string)
    requires Represents(kvs, contents) && path !in kvs
    ensures Lists(contents, path, [])
  {
    assert forall id :: Agrees(ENCODE, kvs, contents, FaultKey(path, id));
  }

  predicate AllDecode(m: KvsMap) {
    forall key :: key in m ==> Decode(key, m[key]).Ok?
  }

  lemma StoreDecodes(kvs: Kvs, contents: map<FaultKey, SovdFaultState>, path: string)
    requires Represents(kvs, contents) && path in kvs
    ensures AllDecode(kvs[path])
  {
    forall key | key in kvs[path]
      ensures Decode(key, kvs[path][key]).Ok?
    {
      EntryDecodes(kvs, contents, path, key);
    }
  }

  class KvsStorage {
    var kvs: Kvs
    ghost var contents: map<FaultKey, SovdFaultState>

    ghost predicate Valid()
      reads this
    {
      Represents(kvs, contents)
    }

    constructor ()
      ensures Valid() && contents == map[]
    {
      kvs := map[];
      contents := map[];
    }

    /** Insert or overwrite one fault; a time past `i64` leaves the store as it was. */
    method Put(path: string, id: FaultId, state: SovdFaultState) returns (r: Result<(), StorageError>)
      requires Valid()
      modifies this
      ensures Valid()
      ensures r.Ok? <==> Serializable(state)
      ensures contents == if Serializable(state) then old(contents)[FaultKey(path, id) := state] else old(contents)
      ensures kvs.Keys == old(kvs.Keys) + (if Serializable(state) then {path} else {})
    {
      var states := if path in kvs then kvs[path] else map[];
      var value := ToKvs(state);
      if value.Err? {
        return Err(value.error);
      }
      RepresentsAfterPut(ENCODE, kvs, contents, path, id, state);
      kvs := kvs[path := states[FaultIdToKey(id) := value.value]];
      contents := contents[FaultKey(path, id) := state];
      r := Ok(());
    }

    /** The state of one fault, none, or an error if the entry cannot be read. */
    method Get(path: string, id: FaultId) returns (r: Result<Option<SovdFaultState>, StorageError>)
      ensures r == Loaded(kvs, FaultKey(path, id))
      ensures Valid() ==>
                r == Ok(if FaultKey(path, id) in contents then Some(contents[FaultKey(path, id)]) else None)
    {
      if Valid() {
        RepresentedLoads(kvs, contents, FaultKey(path, id));
      }
      var key := FaultIdToKey(id);
      if path !in kvs || key !in kvs[path] {
        return Ok(None);
      }
      var state := FromKvs(kvs[path][key]);
      r := if state.Ok? then Ok(Some(state.value)) else Err(state.error);
    }

    /** Remove one fault, or say that there was none. */
    method Delete(path: string, id: FaultId) returns (r: Result<(), StorageError>)
      requires Valid()
      modifies this
      ensures Valid()
      ensures r == if path !in old(kvs) then Err(Backend("no such key"))
                   else if FaultKey(path, id) !in old(contents) then Err(NotFound)
                   else Ok(())
      ensures FaultKey(path, id) in old(contents) ==> r.Ok?
      ensures contents == old(contents) - {FaultKey(path, id)}
      ensures kvs == if r.Ok? then RemoveEntry(old(kvs), FaultKey(path, id)) else old(kvs)
    {
      assert Agrees(ENCODE, kvs, contents, FaultKey(path, id));
      if path !in kvs {
        return Err(Backend("no such key"));
      }
      var key := FaultIdToKey(id);
      if key !in kvs[path] {
        return Err(NotFound);
      }
      RepresentsAfterDelete(ENCODE, kvs, contents, path, id);
      kvs := kvs[path := kvs[path] - {key}];
      contents := contents - {FaultKey(path, id)};
      r := Ok(());
    }

    /** Remove every fault of a path; the backend refuses a path it has never seen. */
    method DeleteAll(path: string) returns (r: Result<(), StorageError>)
      requires Valid()
      modifies this
      ensures Valid()
      ensures contents == WithoutPath(old(contents), path)
      ensures r == if path in old(kvs) then Ok(()) else Err(Backend("no such key"))
      ensures r.Err? ==> contents == old(contents)
      ensures kvs == old(kvs) - {path}
    {
      RepresentsAfterDeleteAll(ENCODE, kvs, contents, path);
      if path !in kvs {
        return Err(Backend("no such key"));
      }
      kvs := kvs - {path};
      contents := WithoutPath(contents, path);
      r := Ok(());
    }

    /** All faults of a path, each once, in no particular order; one unreadable entry fails the call. */
    method GetAll(path: string) returns (r: Result<seq<(FaultId, SovdFaultState)>, StorageError>)
      ensures r.Ok? <==> (path in kvs ==> AllDecode(kvs[path]))
      ensures Valid() ==> r.Ok? && Lists(contents, path, r.value)
    {
      if path !in kvs {
        if Valid() {
          UnknownPathLists(kvs, contents, path);
        }
        return Ok([]);
      }
      ghost var order: seq<string>;
      r, order := DecodeAll(kvs[path]);
      if Valid() {
        StoreDecodes(kvs, contents, path);
        DecodingLists(kvs, contents, path, order, r.value);
      }
    }
  }

  method DecodeAll(m: KvsMap) returns (r: Result<seq<(FaultId, SovdFaultState)>, StorageError>, ghost order: seq<string>)
    ensures r.Ok? <==> AllDecode(m)
    ensures r.Ok? ==> Enumerates(order, m) && DecodesTo(m, order, r.value)
  {
    var result: seq<(FaultId, SovdFaultState)> := [];
    order := [];
    var keys := m.Keys;
    while keys != {}
      invariant keys <= m.Keys
      invariant forall key :: key in m ==> (key in keys <==> key !in order)
      invariant forall i, j :: 0 <= i < j < |order| ==> order[i] != order[j]
      invariant DecodesTo(m, order, result)
      decreases keys
    {
      var key :| key in keys;
      var entry := Decode(key, m[key]);
      if entry.Err? {
        return Err(entry.error), order;
      }
      DecodesNext(m, order, result, key, entry.value);
      result := result + [entry.value];
      order := order + [key];
      keys := keys - {key};
    }
    DecodesAll(m, order, result);
    r := Ok(result);
  }

  lemma DecodesNext(m: KvsMap, order: seq<string>, list: seq<(FaultId, SovdFaultState)>, key: string, entry: (FaultId, SovdFaultState))
    requires DecodesTo(m, order, list) && key in m && Decode(key, m[key]) == Ok(entry)
    ensures DecodesTo(m, order + [key], list + [entry])
  {
  }

  lemma DecodesAll(m: KvsMap, order: seq<string>, list: seq<(FaultId, SovdFaultState)>)
    requires DecodesTo(m, order, list) && forall key :: key in m ==> key in order
    ensures AllDecode(m)
  {
    forall key | key in m
      ensures Decode(key, m[key]).Ok?
    {
      assert key in order;
    }
  }

  lemma StoredIsSerializable(kvs: Kvs, contents: map<FaultKey, SovdFaultState>)
    requires Represents(kvs, contents)
    ensures forall k :: k in contents ==> Serializable(contents[k])
  {
    forall k | k in contents
      ensures Serializable(contents[k])
    {
      assert Agrees(ENCODE, kvs, contents, k);
    }
  }
}
