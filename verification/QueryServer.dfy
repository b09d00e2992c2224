/** The queries of diagnostic tools, answered at the end of each turn of the manager's loop. */
module QueryServer {
  import opened Basics
  import opened Faults
  import opened Aging
  import opened Storage
  import opened SovdCodes
  import opened SovdFaults
  import opened FaultProcessing
  import opened QueryConversion
  import M = SovdFaultManager

  const MAX_FAULTS_PER_RESPONSE: nat := 64

  datatype DfmQueryRequest =
    | ListFaults(path: LongString)
    | ReadFault(path: LongString, code: ShortString)
    | RemoveAllFaults(path: LongString)
    | RemoveFault(path: LongString, code: ShortString)

  /** The text of a storage error is left out. */
  datatype DfmQueryError = InvalidArgument | UnknownFault | StorageFailure

  datatype DfmQueryResponse =
    | FaultList(faults: seq<IpcSovdFault>, totalCount: U32)
    | SingleFault(fault: IpcSovdFault, env: seq<(ShortString, ShortString)>)
    | Done
    | Refusal(error: DfmQueryError)

  function ErrorToIpc(e: SovdError): DfmQueryError {
    match e
    case BadArgument => InvalidArgument
    case NotFound => UnknownFault
    case StorageFailed(_) => StorageFailure
  }

  /** The deletion a request asks for, if it is one and names a path and a readable code. */
  function RequestSteps(request: DfmQueryRequest): seq<DfmEvent> {
    match request
    case RemoveAllFaults(path) => if path == "" then [] else [DeleteAllFaults(path)]
    case RemoveFault(path, code) =>
      var id := FaultIdFromCode(code);
      if path == "" || code == "" || id.Err? then [] else [DeleteFault(path, id.value)]
    case _ => []
  }

  function AllRequestSteps(requests: seq<DfmQueryRequest>): seq<DfmEvent> {
    if requests == [] then []
    else AllRequestSteps(requests[..|requests| - 1]) + RequestSteps(requests[|requests| - 1])
  }

  /** What one deletion leaves of the stored states. */
  function AfterOne(contents: map<FaultKey, SovdFaultState>, e: DfmEvent): map<FaultKey, SovdFaultState> {
    if e.DeleteFault? then contents - {FaultKey(e.path, e.id)}
    else if e.DeleteAllFaults? then WithoutPath(contents, e.path)
    else contents
  }

  function AfterSteps(contents: map<FaultKey, SovdFaultState>, steps: seq<DfmEvent>): map<FaultKey, SovdFaultState> {
    if steps == [] then contents
    else AfterOne(AfterSteps(contents, steps[..|steps| - 1]), steps[|steps| - 1])
  }

  /** What one deletion leaves of the store itself. */
  function KvsAfter(kvs: Kvs, e: DfmEvent): Kvs {
    if e.DeleteFault? then RemoveEntry(kvs, FaultKey(e.path, e.id))
    else if e.DeleteAllFaults? then kvs - {e.path}
    else kvs
  }

  function KvsAfterAll(kvs: Kvs, steps: seq<DfmEvent>): Kvs {
    if steps == [] then kvs else KvsAfter(KvsAfterAll(kvs, steps[..|steps| - 1]), steps[|steps| - 1])
  }

  // ---------------------------------------------------------------- what a response says

  /** The first 64 faults of the catalog, in the given order, each in wire form, and how many there are in all. */
  predicate ListedAs(registry: CatalogRegistry, kvs: Kvs, path: string, order: seq<FaultId>, response: DfmQueryResponse)
    requires path in registry && M.AllIn(order, registry[path])
  {
    && response.FaultList? && response.totalCount == Min(|order|, U32_MAX)
    && |response.faults| == Min(|order|, MAX_FAULTS_PER_RESPONSE)
    && forall i :: 0 <= i < |response.faults| ==>
         response.faults[i] == SovdFaultToIpc(M.FaultView(registry, kvs, path, order[i]))
  }

  ghost predicate AnswersList(registry: CatalogRegistry, kvs: Kvs, path: string, response: DfmQueryResponse) {
    if path !in registry then response == Refusal(InvalidArgument)
    else exists order :: M.ListsEach(order, registry[path]) && ListedAs(registry, kvs, path, order, response)
  }

  ghost predicate AnswersRead(registry: CatalogRegistry, kvs: Kvs, path: string, code: string, response: DfmQueryResponse) {
    var found, id := M.FaultAt(registry, kvs, path, code), FaultIdFromCode(code);
    if path !in registry || id.Err? then response == Refusal(InvalidArgument)
    else if id.value !in registry[path] then response == Refusal(UnknownFault)
    else if found.Err? then response == Refusal(StorageFailure)
    else
      && response.SingleFault? && response.fault == SovdFaultToIpc(found.value.0)
      && exists order :: SentAs(found.value.1, response.env, order)
  }

  /** The response to one request, given the store it meets. */
  ghost predicate Answers(registry: CatalogRegistry, kvs: Kvs, request: DfmQueryRequest, response: DfmQueryResponse) {
    match request
    case ListFaults(path) => AnswersList(registry, kvs, path, response)
    case ReadFault(path, code) => AnswersRead(registry, kvs, path, code, response)
    case RemoveAllFaults(path) =>
      response == if path == "" then Refusal(InvalidArgument)
                  else if path in kvs then Done
                  else Refusal(StorageFailure)
    case RemoveFault(path, code) =>
      response == if path == "" || code == "" || FaultIdFromCode(code).Err? then Refusal(InvalidArgument)
                  else if path !in kvs then Refusal(StorageFailure)
                  else if Entry(kvs, FaultKey(path, FaultIdFromCode(code).value)).None? then Refusal(UnknownFault)
                  else Done
  }

  /** Each response answers its request in the store that the requests before it have left. */
  ghost predicate AnswersAll(registry: CatalogRegistry, kvs: Kvs, requests: seq<DfmQueryRequest>, responses: seq<DfmQueryResponse>) {
    && |responses| == |requests|
    && (requests != [] ==>
          var n := |requests| - 1;
          && AnswersAll(registry, kvs, requests[..n], responses[..n])
          && Answers(registry, KvsAfterAll(kvs, AllRequestSteps(requests[..n])), requests[n], responses[n]))
  }

  /** As many faults as one response holds, in wire form. */
  method FirstFaults(faults: seq<SovdFault>) returns (wire: seq<IpcSovdFault>)
    ensures |wire| == Min(|faults|, MAX_FAULTS_PER_RESPONSE)
    ensures forall j :: 0 <= j < |wire| ==> wire[j] == SovdFaultToIpc(faults[j])
  {
    wire := [];
    for i := 0 to Min(|faults|, MAX_FAULTS_PER_RESPONSE)
      invariant |wire| == i
      invariant forall j :: 0 <= j < i ==> wire[j] == SovdFaultToIpc(faults[j])
    {
      wire := wire + [SovdFaultToIpc(faults[i])];
    }
  }

  class DfmQueryServer {
    const manager: M.SovdFaultManager

    constructor (manager: M.SovdFaultManager)
      ensures this.manager == manager
    {
      this.manager := manager;
    }

    method AnswerList(path: LongString) returns (response: DfmQueryResponse)
      requires M.KeyedById(manager.registry)
      ensures AnswersList(manager.registry, manager.storage.kvs, path, response)
    {
      var r, order := manager.GetAllFaults(path);
      match r
      case Ok(faults) =>
        var wire := FirstFaults(faults);
        response := FaultList(wire, Min(|faults|, U32_MAX));
        forall j | 0 <= j < |wire|
          ensures wire[j] == SovdFaultToIpc(M.FaultView(manager.registry, manager.storage.kvs, path, order[j]))
        {
          M.ViewsAt(manager.registry, manager.storage.kvs, path, order, j);
        }
        assert ListedAs(manager.registry, manager.storage.kvs, path, order, response);
      case Err(e) => response := Refusal(ErrorToIpc(e));
    }

    method AnswerRead(path: LongString, code: ShortString) returns (response: DfmQueryResponse)
      requires M.KeyedById(manager.registry)
      ensures AnswersRead(manager.registry, manager.storage.kvs, path, code, response)
    {
      var r := manager.GetFault(path, code);
      match r
      case Ok(found) =>
        var env, order := EnvDataToIpc(found.1);
        response := SingleFault(SovdFaultToIpc(found.0), env);
        assert SentAs(found.1, response.env, order);
      case Err(e) => response := Refusal(ErrorToIpc(e));
    }

    /** Reads change nothing; a deletion changes store and stored states by exactly its step. */
    method HandleRequest(request: DfmQueryRequest) returns (response: DfmQueryResponse)
      requires manager.Valid()
      modifies manager.storage
      ensures manager.Valid()
      ensures manager.storage.contents == AfterSteps(old(manager.storage.contents), RequestSteps(request))
      ensures manager.storage.kvs == KvsAfterAll(old(manager.storage.kvs), RequestSteps(request))
      ensures Answers(manager.registry, old(manager.storage.kvs), request, response)
      ensures response.Done? && request.RemoveFault? ==>
                && FaultIdFromCode(request.code).Ok?
                && manager.storage.contents
                   == old(manager.storage.contents) - {FaultKey(request.path, FaultIdFromCode(request.code).value)}
      ensures response.Done? && request.RemoveAllFaults? ==>
                manager.storage.contents == map k | k in old(manager.storage.contents) && k.source != request.path
                                              :: old(manager.storage.contents)[k]
      ensures !response.Done? ==> manager.storage.contents == old(manager.storage.contents)
    {
      match request
      case ListFaults(path) => response := AnswerList(path);
      case ReadFault(path, code) => response := AnswerRead(path, code);
      case RemoveAllFaults(path) =>
        OneDeletion(manager.storage.contents, manager.storage.kvs, DeleteAllFaults(path));
        var r := manager.DeleteAllFaults(path);
        response := if r.Ok? then Done else Refusal(ErrorToIpc(r.error));
      case RemoveFault(path, code) =>
        response := AnswerRemove(path, code);
    }

    method AnswerRemove(path: LongString, code: ShortString) returns (response: DfmQueryResponse)
      requires manager.Valid()
      modifies manager.storage
      ensures manager.Valid()
      ensures manager.storage.contents == AfterSteps(old(manager.storage.contents), RequestSteps(RemoveFault(path, code)))
      ensures manager.storage.kvs == KvsAfterAll(old(manager.storage.kvs), RequestSteps(RemoveFault(path, code)))
      ensures Answers(manager.registry, old(manager.storage.kvs), RemoveFault(path, code), response)
      ensures response.Done? ==>
                FaultIdFromCode(code).Ok?
                && manager.storage.contents == old(manager.storage.contents) - {FaultKey(path, FaultIdFromCode(code).value)}
      ensures !response.Done? ==> manager.storage.contents == old(manager.storage.contents)
    {
      var id := FaultIdFromCode(code);
      if id.Ok? {
        var k := FaultKey(path, id.value);
        OneDeletion(manager.storage.contents, manager.storage.kvs, DeleteFault(path, id.value));
        StoredHasEntry(manager.storage.kvs, manager.storage.contents, k);
        AbsentIsRemoved(manager.storage.kvs, manager.storage.contents, k);
      }
      var r := manager.DeleteFault(path, code);
      response := if r.Ok? then Done else Refusal(ErrorToIpc(r.error));
    }

    /** Every pending request is answered once, in order, in the store the ones before it have left. */
    method Poll(requests: seq<DfmQueryRequest>) returns (responses: seq<DfmQueryResponse>)
      requires manager.Valid()
      modifies manager.storage
      ensures manager.Valid()
      ensures AnswersAll(manager.registry, old(manager.storage.kvs), requests, responses)
      ensures manager.storage.contents == AfterSteps(old(manager.storage.contents), AllRequestSteps(requests))
      ensures manager.storage.kvs == KvsAfterAll(old(manager.storage.kvs), AllRequestSteps(requests))
    {
      responses := [];
      for i := 0 to |requests|
        invariant manager.Valid()
        invariant manager.storage.contents == AfterSteps(old(manager.storage.contents), AllRequestSteps(requests[..i]))
        invariant manager.storage.kvs == KvsAfterAll(old(manager.storage.kvs), AllRequestSteps(requests[..i]))
        invariant AnswersAll(manager.registry, old(manager.storage.kvs), requests[..i], responses)
      {
        NextRequest(requests, i);
        AfterConcat(old(manager.storage.contents), AllRequestSteps(requests[..i]), RequestSteps(requests[i]));
        KvsAfterConcat(old(manager.storage.kvs), AllRequestSteps(requests[..i]), RequestSteps(requests[i]));
        var response := HandleRequest(requests[i]);
        AnswersSnoc(manager.registry, old(manager.storage.kvs), requests, i, responses, response);
        responses := responses + [response];
      }
      assert requests[..|requests|] == requests;
    }
  }

  /** What a tool that reads a fault is shown is what is stored for it, or clear if nothing is. */
  lemma ReadShowsStored(registry: CatalogRegistry, kvs: Kvs, contents: map<FaultKey, SovdFaultState>, path: LongString,
                        code: ShortString, response: DfmQueryResponse)
    requires Represents(kvs, contents) && Answers(registry, kvs, ReadFault(path, code), response)
    requires path in registry && FaultIdFromCode(code).Ok? && FaultIdFromCode(code).value in registry[path]
    ensures var k := FaultKey(path, FaultIdFromCode(code).value);
            response.SingleFault? && WireShows(response.fault, if k in contents then contents[k] else DEFAULT_STATE)
  {
    var id := FaultIdFromCode(code).value;
    RepresentedLoads(kvs, contents, FaultKey(path, id));
    WireShowsState(registry[path][id], M.ListedState(kvs, FaultKey(path, id)));
  }

  /** A listing shows at most 64 faults of the catalog, no two the same, each with what is stored for it. */
  lemma ListShowsStored(registry: CatalogRegistry, kvs: Kvs, contents: map<FaultKey, SovdFaultState>, path: LongString,
                        response: DfmQueryResponse) returns (order: seq<FaultId>)
    requires Represents(kvs, contents) && Answers(registry, kvs, ListFaults(path), response) && path in registry
    ensures response.FaultList? && M.ListsEach(order, registry[path])
    ensures |response.faults| == (if |order| <= 64 then |order| else 64) && response.totalCount == Min(|order|, U32_MAX)
    ensures forall i :: 0 <= i < |response.faults| ==>
              var k := FaultKey(path, order[i]);
              WireShows(response.faults[i], if k in contents then contents[k] else DEFAULT_STATE)
  {
    order :| M.ListsEach(order, registry[path]) && ListedAs(registry, kvs, path, order, response);
    forall i | 0 <= i < |response.faults|
      ensures var k := FaultKey(path, order[i]);
              WireShows(response.faults[i], if k in contents then contents[k] else DEFAULT_STATE)
    {
      RepresentedLoads(kvs, contents, FaultKey(path, order[i]));
      WireShowsState(registry[path][order[i]], M.ListedState(kvs, FaultKey(path, order[i])));
    }
  }

  lemma NextRequest(requests: seq<DfmQueryRequest>, i: nat)
    requires i < |requests|
    ensures AllRequestSteps(requests[..i + 1]) == AllRequestSteps(requests[..i]) + RequestSteps(requests[i])
  {
    assert requests[..i + 1][..i] == requests[..i];
  }

  lemma AnswersSnoc(registry: CatalogRegistry, kvs: Kvs, requests: seq<DfmQueryRequest>, i: nat,
                    responses: seq<DfmQueryResponse>, response: DfmQueryResponse)
    requires i < |requests| && AnswersAll(registry, kvs, requests[..i], responses)
    requires Answers(registry, KvsAfterAll(kvs, AllRequestSteps(requests[..i])), requests[i], response)
    ensures AnswersAll(registry, kvs, requests[..i + 1], responses + [response])
  {
    assert requests[..i + 1][..i] == requests[..i] && (responses + [response])[..i] == responses;
  }

  lemma StoredHasEntry(kvs: Kvs, contents: map<FaultKey, SovdFaultState>, k: FaultKey)
    requires Represents(kvs, contents)
    ensures k in contents <==> Entry(kvs, k).Some?
  {
    assert Agrees(ENCODE, kvs, contents, k);
  }

  /** Removing what is not there leaves the store as it was. */
  lemma AbsentIsRemoved(kvs: Kvs, contents: map<FaultKey, SovdFaultState>, k: FaultKey)
    requires Represents(kvs, contents)
    ensures k !in contents ==> RemoveEntry(kvs, k) == kvs
  {
    StoredHasEntry(kvs, contents, k);
    if k !in contents && k.source in kvs {
      assert kvs[k.source] - {StorageKeys.FaultIdToKey(k.faultId)} == kvs[k.source];
    }
  }

  lemma OneDeletion(contents: map<FaultKey, SovdFaultState>, kvs: Kvs, e: DfmEvent)
    ensures AfterSteps(contents, [e]) == AfterOne(contents, e) && KvsAfterAll(kvs, [e]) == KvsAfter(kvs, e)
  {
    assert [e][..0] == [];
  }

  lemma {:induction false} KvsAfterConcat(kvs: Kvs, a: seq<DfmEvent>, b: seq<DfmEvent>)
    ensures KvsAfterAll(kvs, a + b) == KvsAfterAll(KvsAfterAll(kvs, a), b)
  {
    if b == [] {
      assert a + b == a;
    } else {
      assert (a + b)[..|a + b| - 1] == a + b[..|b| - 1];
      KvsAfterConcat(kvs, a, b[..|b| - 1]);
    }
  }

  lemma {:induction false} AfterConcat(contents: map<FaultKey, SovdFaultState>, a: seq<DfmEvent>, b: seq<DfmEvent>)
    ensures AfterSteps(contents, a + b) == AfterSteps(AfterSteps(contents, a), b)
  {
    if b == [] {
      assert a + b == a;
    } else {
      assert (a + b)[..|a + b| - 1] == a + b[..|b| - 1];
      AfterConcat(contents, a, b[..|b| - 1]);
    }
  }
}
