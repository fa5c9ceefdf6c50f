/**
 * WebDAVTransportPlugin: turns one delivery record into WebDAV requests.
 * A publish walks the folders of the target path from parent to child,
 * creating the missing ones, then PUTs the payload; any other action DELETEs
 * the resource, a 404 counting as success. Every session is shut down.
 */
module WebDavTransport {
  import opened Wrappers
  import opened JavaStrings
  import opened Encodings
  import opened OsgiProperties
  import opened Client
  import opened WebDavShare
  import opened WebDavPaths

  /** The share after a sequence of requests, the requests sent, and how the sequence ended. */
  datatype Trace = Trace(share: Share, requests: seq<Request>, outcome: Outcome<Failure>)

  function Prepend(requests: seq<Request>, t: Trace): Trace {
    t.(requests := requests + t.requests)
  }

  lemma PrependTwice(first: seq<Request>, second: seq<Request>, t: Trace)
    ensures Prepend(first, Prepend(second, t)) == Prepend(first + second, t)
  {
    assert first + (second + t.requests) == (first + second) + t.requests;
  }

  /** One folder of getOrCreateFolders: HEAD the URL and MKCOL it when absent. */
  function Visit(share: Share, fault: FaultOracle, url: string): (t: Trace)
    ensures t.outcome.Fail? ==> t.share == share
  {
    match Serve(share, fault, HEAD(url)).result
    case Failure(f) => Trace(share, [HEAD(url)], Fail(f))
    case Success(true) => Trace(share, [HEAD(url)], Pass)
    case Success(false) =>
      var made := Serve(share, fault, MKCOL(url));
      Trace(made.share, [HEAD(url), MKCOL(url)], if made.result.Success? then Pass else Fail(made.result.error))
  }

  /** getOrCreateFolders over the folder URLs: visit each one in order, stop at the first failure. */
  function Walk(share: Share, fault: FaultOracle, urls: seq<string>): Trace
    decreases |urls|
  {
    if urls == [] then Trace(share, [], Pass)
    else
      var visit := Visit(share, fault, urls[0]);
      if visit.outcome.Fail? then visit
      else Prepend(visit.requests, Walk(visit.share, fault, urls[1..]))
  }

  /** A visit keeps what the share holds, adds at most a collection at its URL, and MKCOLs only when the URL was absent. */
  lemma VisitChanges(share: Share, fault: FaultOracle, url: string)
    ensures var visit := Visit(share, fault, url);
      forall u :: u in share ==> u in visit.share && visit.share[u] == share[u]
    ensures var visit := Visit(share, fault, url);
      forall u :: u in visit.share && u !in share ==> u == url && visit.share[u] == Collection
    ensures var visit := Visit(share, fault, url);
      visit.requests == [HEAD(url)] || (visit.requests == [HEAD(url), MKCOL(url)] && url !in share)
  {
  }

  /** The HEAD requests of a walk over folders that all exist. */
  function Heads(urls: seq<string>): (requests: seq<Request>)
    ensures |requests| == |urls|
    ensures forall k :: 0 <= k < |urls| ==> requests[k] == HEAD(urls[k])
  {
    if urls == [] then [] else [HEAD(urls[0])] + Heads(urls[1..])
  }

  /** The walk never removes or rewrites what the share holds. */
  lemma {:induction false} WalkKeepsShare(share: Share, fault: FaultOracle, urls: seq<string>)
    ensures forall u :: u in share ==> u in Walk(share, fault, urls).share && Walk(share, fault, urls).share[u] == share[u]
    decreases |urls|
  {
    if urls != [] {
      var made := Serve(share, fault, MKCOL(urls[0]));
      WalkKeepsShare(share, fault, urls[1..]);
      WalkKeepsShare(made.share, fault, urls[1..]);
    }
  }

  lemma TailInSeq(urls: seq<string>)
    requires urls != []
    ensures forall u :: u in urls[1..] ==> u in urls
  {
    forall u | u in urls[1..] ensures u in urls {
      var i :| 0 <= i < |urls[1..]| && urls[1..][i] == u;
      assert urls[i + 1] == u;
    }
  }

  /** Requests that only ask whether a URL exists, or create a collection at one of the URLs that the share lacked. */
  predicate AsksOrCreatesMissing(requests: seq<Request>, urls: seq<string>, share: Share) {
    forall k :: 0 <= k < |requests| ==>
      requests[k].HEAD? || (requests[k].MKCOL? && requests[k].url in urls && requests[k].url !in share)
  }

  /** The walk sends only HEAD and MKCOL, and MKCOLs only folder URLs that were absent. */
  lemma {:induction false} WalkCreatesOnlyMissing(share: Share, fault: FaultOracle, urls: seq<string>)
    ensures AsksOrCreatesMissing(Walk(share, fault, urls).requests, urls, share)
    decreases |urls|
  {
    if urls != [] {
      var visit := Visit(share, fault, urls[0]);
      VisitChanges(share, fault, urls[0]);
      assert urls[0] in urls;
      if visit.outcome.Pass? {
        var rest := Walk(visit.share, fault, urls[1..]);
        WalkCreatesOnlyMissing(visit.share, fault, urls[1..]);
        TailInSeq(urls);
        var requests := visit.requests + rest.requests;
        forall k | 0 <= k < |requests|
          ensures requests[k].HEAD? || (requests[k].MKCOL? && requests[k].url in urls && requests[k].url !in share)
        {
          if k >= |visit.requests| {
            assert requests[k] == rest.requests[k - |visit.requests|];
          }
        }
      }
    }
  }

  /** What the walk adds to the share are collections at folder URLs. */
  lemma {:induction false} WalkAddsOnlyFolders(share: Share, fault: FaultOracle, urls: seq<string>)
    ensures var t := Walk(share, fault, urls);
      forall u :: u in t.share && u !in share ==> u in urls && t.share[u] == Collection
    decreases |urls|
  {
    if urls != [] {
      var visit := Visit(share, fault, urls[0]);
      if visit.outcome.Pass? {
        WalkAddsOnlyFolders(visit.share, fault, urls[1..]);
        WalkKeepsShare(visit.share, fault, urls[1..]);
        TailInSeq(urls);
      }
    }
  }

  /** After a walk that completed, every folder URL exists. */
  lemma {:induction false} WalkEstablishesFolders(share: Share, fault: FaultOracle, urls: seq<string>)
    requires Walk(share, fault, urls).outcome.Pass?
    ensures forall u :: u in urls ==> u in Walk(share, fault, urls).share
    decreases |urls|
  {
    if urls != [] {
      var url := urls[0];
      var made := Serve(share, fault, MKCOL(url));
      if Serve(share, fault, HEAD(url)).result == Success(true) {
        WalkEstablishesFolders(share, fault, urls[1..]);
        WalkKeepsShare(share, fault, urls[1..]);
      } else {
        WalkEstablishesFolders(made.share, fault, urls[1..]);
        WalkKeepsShare(made.share, fault, urls[1..]);
      }
      forall u | u in urls ensures u in Walk(share, fault, urls).share {
        if u != url {
          var i :| 0 <= i < |urls| && urls[i] == u;
          assert urls[1..][i - 1] == u;
        }
      }
    }
  }

  /** Without faults, and with no document above any folder URL, the walk always completes. */
  lemma {:induction false} WalkWithoutFaults(share: Share, fault: FaultOracle, urls: seq<string>)
    requires NoFaults(fault)
    requires forall u :: u in urls ==> !BelowDocument(share, u)
    ensures Walk(share, fault, urls).outcome.Pass?
    decreases |urls|
  {
    if urls != [] {
      assert urls[0] in urls;
      assert fault(HEAD(urls[0])).None?;
      assert fault(MKCOL(urls[0])).None?;
      TailInSeq(urls);
      var visit := Visit(share, fault, urls[0]);
      VisitChanges(share, fault, urls[0]);
      forall u | u in urls[1..] ensures !BelowDocument(visit.share, u) {
        BelowDocumentGrows(share, visit.share, u);
      }
      WalkWithoutFaults(visit.share, fault, urls[1..]);
    }
  }

  /** Over folders that all exist, and HEADs that all get an answer, the walk only asks and changes nothing. */
  lemma {:induction false} WalkOverExistingFolders(share: Share, fault: FaultOracle, urls: seq<string>)
    requires forall u :: u in urls ==> u in share && fault(HEAD(u)).None?
    ensures Walk(share, fault, urls) == Trace(share, Heads(urls), Pass)
    decreases |urls|
  {
    if urls != [] {
      assert urls[0] in urls;
      forall u | u in urls[1..] ensures u in share && fault(HEAD(u)).None? {
        var i :| 0 <= i < |urls[1..]| && urls[1..][i] == u;
        assert urls[i + 1] == u;
      }
      WalkOverExistingFolders(share, fault, urls[1..]);
    }
  }

  /** A second walk over the same folders after one that completed creates nothing. */
  lemma WalkIdempotent(share: Share, fault: FaultOracle, urls: seq<string>)
    requires Walk(share, fault, urls).outcome.Pass?
    requires forall u :: u in urls ==> fault(HEAD(u)).None?
    ensures var first := Walk(share, fault, urls);
      Walk(first.share, fault, urls) == Trace(first.share, Heads(urls), Pass)
  {
    WalkEstablishesFolders(share, fault, urls);
    WalkOverExistingFolders(Walk(share, fault, urls).share, fault, urls);
  }

  /** The body of getOrCreateFolders' loop for one folder URL: nothing more when it exists, MKCOL otherwise. */
  method VisitFolder(sardine: Sardine, url: string) returns (r: Outcome<Failure>)
    modifies sardine
    ensures var visit := Visit(old(sardine.share), sardine.fault, url);
      sardine.share == visit.share && sardine.requests == old(sardine.requests) + visit.requests && r == visit.outcome
    ensures sardine.open == old(sardine.open)
  {
    var found := sardine.Exists(url);
    if found.Failure? {
      return Fail(found.error);
    }
    if found.value {
      return Pass;
    }
    r := sardine.CreateDirectory(url);
  }

  /** getOrCreateFolders as the source computes it: each URL is derived from the previous one as the walk goes. */
  function WalkFolders(share: Share, fault: FaultOracle, base: string, folders: seq<string>): Trace
    decreases |folders|
  {
    if folders == [] then Trace(share, [], Pass)
    else
      var url := AppendIfMissing(base, '/') + folders[0];
      var visit := Visit(share, fault, url);
      if visit.outcome.Fail? then visit
      else Prepend(visit.requests, WalkFolders(visit.share, fault, url, folders[1..]))
  }

  /** One more folder of the walk: the requests sent so far, then the visit, then either its failure or the rest. */
  lemma WalkFoldersAdvance(whole: Trace, sent: seq<Request>, share: Share, fault: FaultOracle, parent: string,
                           folders: seq<string>)
    requires folders != []
    requires whole == Prepend(sent, WalkFolders(share, fault, parent, folders))
    ensures var url := AppendIfMissing(parent, '/') + folders[0];
      var visit := Visit(share, fault, url);
      whole == if visit.outcome.Fail? then Prepend(sent, visit)
               else Prepend(sent + visit.requests, WalkFolders(visit.share, fault, url, folders[1..]))
  {
    var url := AppendIfMissing(parent, '/') + folders[0];
    var visit := Visit(share, fault, url);
    PrependTwice(sent, visit.requests, WalkFolders(visit.share, fault, url, folders[1..]));
  }

  /** The walk the source performs is the walk over the folder URLs. */
  lemma {:induction false} WalkFoldersFollowsUrls(share: Share, fault: FaultOracle, base: string, folders: seq<string>)
    ensures WalkFolders(share, fault, base, folders) == Walk(share, fault, FolderUrls(base, folders))
    decreases |folders|
  {
    if folders != [] {
      var url := AppendIfMissing(base, '/') + folders[0];
      assert FolderUrls(base, folders)[1..] == FolderUrls(url, folders[1..]);
      WalkFoldersFollowsUrls(Visit(share, fault, url).share, fault, url, folders[1..]);
    }
  }

  /** getOrCreateFolders: walks the folders of the path below the endpoint URL in the given session. */
  method GetOrCreateFolders(sardine: Sardine, endPointUrl: string, path: string) returns (r: Outcome<Failure>)
    modifies sardine
    ensures Prepend(old(sardine.requests), WalkFolders(old(sardine.share), sardine.fault, endPointUrl, FoldersOf(path)))
      == Trace(sardine.share, sardine.requests, r)
    ensures sardine.open == old(sardine.open)
  {
    var folderPath := SubstringBeforeLast(path, '/');
    var folders := Split(folderPath, '/');
    ghost var whole := Prepend(sardine.requests, WalkFolders(sardine.share, sardine.fault, endPointUrl, folders));
    var url := endPointUrl;
    for i := 0 to |folders|
      invariant sardine.open == old(sardine.open)
      invariant whole == Prepend(sardine.requests, WalkFolders(sardine.share, sardine.fault, url, folders[i..]))
    {
      assert folders[i..][1..] == folders[i + 1..];
      WalkFoldersAdvance(whole, sardine.requests, sardine.share, sardine.fault, url, folders[i..]);
      url := AppendIfMissing(url, '/') + folders[i];
      r := VisitFolder(sardine, url);
      if r.Fail? {
        return;
      }
    }
    r := Pass;
  }

  /** deliverWebDAV as a trace: the folder walk, then the PUT to transport URI + path if the walk completed. */
  function UploadTrace(share: Share, fault: FaultOracle, transportUri: string, path: string,
                       data: seq<byte>, contentType: string): Trace
  {
    var walk := WalkFolders(share, fault, transportUri, FoldersOf(path));
    if walk.outcome.Fail? then walk
    else
      var put := Serve(walk.share, fault, PUT(transportUri + path, data, contentType));
      Trace(put.share, walk.requests + [PUT(transportUri + path, data, contentType)],
            if put.result.Success? then Pass else Fail(put.result.error))
  }

  /** deliverWebDAV: a fresh session walks the folders and PUTs the data; the session is shut down on every path. */
  method DeliverWebDav(share: Share, fault: FaultOracle, transportUri: string, path: string,
                       data: seq<byte>, contentType: string)
    returns (r: Outcome<Failure>, after: Share, requests: seq<Request>, closed: bool)
    ensures UploadTrace(share, fault, transportUri, path, data, contentType) == Trace(after, requests, r)
    ensures closed
  {
    var sardine := new Sardine(share, fault);
    r := GetOrCreateFolders(sardine, transportUri, path);
    if r.Pass? {
      r := sardine.Put(transportUri + path, data, contentType);
    }
    sardine.Shutdown();
    after, requests, closed := sardine.share, sardine.requests, !sardine.open;
  }

  /** The upload sends the PUT last, and only after a completed walk. */
  lemma UploadPutsLast(share: Share, fault: FaultOracle, transportUri: string, path: string,
                       data: seq<byte>, contentType: string)
    ensures var t := UploadTrace(share, fault, transportUri, path, data, contentType);
      forall k :: 0 <= k < |t.requests| && t.requests[k].PUT? ==>
        k == |t.requests| - 1 && t.requests[k] == PUT(transportUri + path, data, contentType)
        && Walk(share, fault, FolderUrls(transportUri, FoldersOf(path))).outcome.Pass?
  {
    var urls := FolderUrls(transportUri, FoldersOf(path));
    WalkFoldersFollowsUrls(share, fault, transportUri, FoldersOf(path));
    WalkCreatesOnlyMissing(share, fault, urls);
    var walk := Walk(share, fault, urls);
    var t := UploadTrace(share, fault, transportUri, path, data, contentType);
    if walk.outcome.Pass? {
      assert t.requests == walk.requests + [PUT(transportUri + path, data, contentType)];
      forall k | 0 <= k < |walk.requests| ensures !t.requests[k].PUT? {
        assert t.requests[k] == walk.requests[k];
      }
    }
  }

  /** What the share held before an upload is still there after it, whatever failed. */
  lemma UploadKeepsShare(share: Share, fault: FaultOracle, transportUri: string, path: string,
                         data: seq<byte>, contentType: string)
    ensures var t := UploadTrace(share, fault, transportUri, path, data, contentType);
      forall u :: u in share ==> u in t.share
  {
    var urls := FolderUrls(transportUri, FoldersOf(path));
    WalkFoldersFollowsUrls(share, fault, transportUri, FoldersOf(path));
    WalkKeepsShare(share, fault, urls);
  }

  /** A completed upload leaves every folder and the document in place. */
  lemma UploadEstablishes(share: Share, fault: FaultOracle, transportUri: string, path: string,
                          data: seq<byte>, contentType: string)
    requires UploadTrace(share, fault, transportUri, path, data, contentType).outcome.Pass?
    ensures var t := UploadTrace(share, fault, transportUri, path, data, contentType);
      t.share[transportUri + path] == Document(data, contentType)
      && forall u :: u in FolderUrls(transportUri, FoldersOf(path)) ==> u in t.share
  {
    WalkFoldersFollowsUrls(share, fault, transportUri, FoldersOf(path));
    WalkEstablishesFolders(share, fault, FolderUrls(transportUri, FoldersOf(path)));
  }

  /** Without faults, an upload to a target that is not a collection, with no document above it or
      above its folders, completes. */
  lemma UploadWithoutFaults(share: Share, fault: FaultOracle, transportUri: string, path: string,
                            data: seq<byte>, contentType: string)
    requires NoFaults(fault)
    requires transportUri + path !in FolderUrls(transportUri, FoldersOf(path))
    requires transportUri + path in share ==> share[transportUri + path].Document?
    requires forall u :: u in FolderUrls(transportUri, FoldersOf(path)) ==> !BelowDocument(share, u)
    requires !BelowDocument(share, transportUri + path)
    ensures UploadTrace(share, fault, transportUri, path, data, contentType).outcome.Pass?
  {
    var urls := FolderUrls(transportUri, FoldersOf(path));
    WalkFoldersFollowsUrls(share, fault, transportUri, FoldersOf(path));
    WalkWithoutFaults(share, fault, urls);
    WalkKeepsShare(share, fault, urls);
    WalkAddsOnlyFolders(share, fault, urls);
    var walk := Walk(share, fault, urls);
    var target := transportUri + path;
    BelowDocumentGrows(share, walk.share, target);
    assert target in walk.share ==> walk.share[target].Document?;
    assert fault(PUT(target, data, contentType)).None?;
  }

  /** deleteWevDAV as a trace: one DELETE; a 404 counts as success, any other failure does not. */
  function RemoveTrace(share: Share, fault: FaultOracle, url: string): Trace {
    var reply := Serve(share, fault, DELETE(url));
    Trace(reply.share, [DELETE(url)],
          if reply.result.Success? || reply.result.error == StatusFailure(NotFound) then Pass
          else Fail(reply.result.error))
  }

  /** deleteWevDAV: a fresh session sends the DELETE and is shut down on every path. */
  method DeleteWebDav(share: Share, fault: FaultOracle, transportUri: string, path: string)
    returns (r: Outcome<Failure>, after: Share, requests: seq<Request>, closed: bool)
    ensures RemoveTrace(share, fault, transportUri + path) == Trace(after, requests, r)
    ensures closed
  {
    var sardine := new Sardine(share, fault);
    r := sardine.Delete(transportUri + path);
    if r.Fail? && r.error == StatusFailure(NotFound) {
      r := Pass;
    }
    sardine.Shutdown();
    after, requests, closed := sardine.share, sardine.requests, !sardine.open;
  }

  /** The delete fails exactly when the server or network refuses it with something other than 404. */
  lemma RemoveOutcome(share: Share, fault: FaultOracle, url: string)
    ensures RemoveTrace(share, fault, url).outcome.Fail? <==>
      fault(DELETE(url)).Some? && fault(DELETE(url)).value != StatusFailure(NotFound)
  {
  }

  /** Deleting twice is deleting once: the second DELETE meets a 404 and succeeds without change. */
  lemma RemoveIdempotent(share: Share, fault: FaultOracle, url: string)
    requires fault(DELETE(url)).None?
    ensures var first := RemoveTrace(share, fault, url);
      url !in first.share && RemoveTrace(first.share, fault, url) == Trace(first.share, [DELETE(url)], Pass)
  {
  }

  /** The replication action types of the content replication framework. */
  datatype ActionType = Activate | Deactivate | Delete | Test | Reverse | InternalPoll

  datatype ReplicationAction = ReplicationAction(actionType: ActionType, path: string)

  /** The payload object of a delivery: data and mimetype are string entries that may be absent;
      hasBase64 says whether the base64 entry is present, whatever its value. */
  datatype Payload = Payload(data: Option<string>, mimetype: Option<string>, hasBase64: bool)

  /** The delivery record: the WebDAV share, the asset path and the payload, each possibly absent. */
  datatype Delivery = Delivery(webdavShare: Option<string>, path: Option<string>, payload: Option<Payload>)

  /** The ReplicationExceptions deliver throws. */
  datatype ReplicationError = CannotCreateEndpointUri | CannotCreateAssetData | TransportError(failure: Failure)

  /** What deliver decides to do before talking to the share. */
  datatype Plan =
    | Upload(transportUri: string, path: string, data: seq<byte>, contentType: string)
    | NothingToSend
    | Remove(url: string)

  /** StringBuilder.append of a possibly null string. */
  function Appended(s: JString): string {
    if s.None? then "null" else s.value
  }

  /** deliver up to the requests: the transport URI is the scheme, the client's WebDAV endpoint and the
      share's endpoint path; the upload path is the target path; the delete goes to the action's path. */
  function PlanDelivery(delivery: Delivery, action: ReplicationAction, schema: string, endpoint: JString,
                        endpointPath: string -> string): (r: Result<Plan, ReplicationError>)
    ensures r == Failure(CannotCreateEndpointUri) <==> delivery.webdavShare.None? || delivery.path.None?
    ensures r.Success? && (r.value.Upload? || r.value.NothingToSend?) <==>
      r.Success? && action.actionType == Activate
    ensures r.Success? && r.value.Upload? ==> r.value.contentType != "" && r.value.path == TargetPath(delivery.path.value)
    ensures r.Success? && r.value.Remove? ==>
      |action.path| <= |r.value.url| && r.value.url[|r.value.url| - |action.path|..] == action.path
  {
    if delivery.webdavShare.None? || delivery.path.None? then Failure(CannotCreateEndpointUri)
    else
      var transportUri := schema + Appended(endpoint) + endpointPath(delivery.webdavShare.value);
      if action.actionType == Activate then
        match delivery.payload
        case None => Failure(CannotCreateAssetData)
        case Some(payload) =>
          if payload.data.None? || payload.mimetype.None? then Failure(CannotCreateAssetData)
          else
            var data := if payload.hasBase64 then Base64Decode(payload.data.value) else Utf8(payload.data.value);
            if payload.mimetype.value == "" then Success(NothingToSend)
            else Success(Upload(transportUri, TargetPath(delivery.path.value), data, payload.mimetype.value))
      else Success(Remove(transportUri + action.path))
  }

  /** Carrying out a plan against the share. */
  function RunPlan(share: Share, fault: FaultOracle, plan: Plan): Trace {
    match plan
    case Upload(transportUri, path, data, contentType) => UploadTrace(share, fault, transportUri, path, data, contentType)
    case NothingToSend => Trace(share, [], Pass)
    case Remove(url) => RemoveTrace(share, fault, url)
  }

  /** What deliver returns for a plan that was carried out. */
  function DeliveryResult(plan: Plan, t: Trace): Result<bool, ReplicationError> {
    if t.outcome.Fail? then Failure(TransportError(t.outcome.error)) else Success(!plan.NothingToSend?)
  }

  /** deliver: builds the transport URI and the path, then uploads, reports nothing to send, or deletes. */
  method Deliver(share: Share, fault: FaultOracle, delivery: Delivery, action: ReplicationAction,
                 schema: string, endpoint: JString, endpointPath: string -> string)
    returns (r: Result<bool, ReplicationError>, after: Share, requests: seq<Request>)
    ensures match PlanDelivery(delivery, action, schema, endpoint, endpointPath)
      case Failure(e) => r == Failure(e) && after == share && requests == []
      case Success(plan) =>
        var t := RunPlan(share, fault, plan);
        after == t.share && requests == t.requests && r == DeliveryResult(plan, t)
  {
    after, requests := share, [];
    if delivery.webdavShare.None? || delivery.path.None? {
      return Failure(CannotCreateEndpointUri), after, requests;
    }
    var transportUri := schema + Appended(endpoint) + endpointPath(delivery.webdavShare.value);
    var path := TargetPath(delivery.path.value);
    if action.actionType == Activate {
      if delivery.payload.None? || delivery.payload.value.data.None? || delivery.payload.value.mimetype.None? {
        return Failure(CannotCreateAssetData), after, requests;
      }
      var payload := delivery.payload.value;
      var data := if payload.hasBase64 then Base64Decode(payload.data.value) else Utf8(payload.data.value);
      var contentType := payload.mimetype.value;
      if contentType != "" {
        var outcome, closed;
        outcome, after, requests, closed := DeliverWebDav(share, fault, transportUri, path, data, contentType);
        r := if outcome.Fail? then Failure(TransportError(outcome.error)) else Success(true);
      } else {
        r := Success(false);
      }
    } else {
      var outcome, closed;
      outcome, after, requests, closed := DeleteWebDav(share, fault, transportUri, action.path);
      r := if outcome.Fail? then Failure(TransportError(outcome.error)) else Success(true);
    }
  }

  /** deliver fails before any request exactly when a needed entry of the record is missing. */
  lemma PlanFailsOnMissingEntries(delivery: Delivery, action: ReplicationAction, schema: string,
                                  endpoint: JString, endpointPath: string -> string)
    ensures PlanDelivery(delivery, action, schema, endpoint, endpointPath).Failure? <==>
      delivery.webdavShare.None? || delivery.path.None?
      || (action.actionType == Activate
          && (delivery.payload.None? || delivery.payload.value.data.None? || delivery.payload.value.mimetype.None?))
    ensures PlanDelivery(delivery, action, schema, endpoint, endpointPath) == Failure(CannotCreateEndpointUri) <==>
      delivery.webdavShare.None? || delivery.path.None?
  {
  }

  /** A base64 payload is uploaded as the bytes it encodes; any other payload as the UTF-8 bytes of its text. */
  lemma PlanPayloadBytes(delivery: Delivery, action: ReplicationAction, schema: string,
                         endpoint: JString, endpointPath: string -> string, bytes: seq<byte>)
    requires delivery.webdavShare.Some? && delivery.path.Some? && action.actionType == Activate
    requires delivery.payload.Some? && delivery.payload.value.mimetype.Some? && delivery.payload.value.mimetype.value != ""
    requires delivery.payload.value.hasBase64 ==> delivery.payload.value.data == Some(Base64Encode(bytes))
    requires !delivery.payload.value.hasBase64 ==> delivery.payload.value.data.Some? && Utf8(delivery.payload.value.data.value) == bytes
    ensures var plan := PlanDelivery(delivery, action, schema, endpoint, endpointPath);
      plan.Success? && plan.value.Upload? && plan.value.data == bytes
      && plan.value.path == TargetPath(delivery.path.value)
      && plan.value.contentType == delivery.payload.value.mimetype.value
  {
    if delivery.payload.value.hasBase64 {
      Base64RoundTrip(bytes);
    }
  }

  /** An empty content type sends nothing: deliver returns false without a request. */
  lemma EmptyContentTypeSendsNothing(share: Share, fault: FaultOracle, delivery: Delivery, action: ReplicationAction,
                                     schema: string, endpoint: JString, endpointPath: string -> string)
    requires delivery.webdavShare.Some? && delivery.path.Some? && action.actionType == Activate
    requires delivery.payload.Some? && delivery.payload.value.data.Some? && delivery.payload.value.mimetype == Some("")
    ensures var plan := PlanDelivery(delivery, action, schema, endpoint, endpointPath);
      plan == Success(NothingToSend)
      && RunPlan(share, fault, plan.value) == Trace(share, [], Pass)
      && DeliveryResult(plan.value, RunPlan(share, fault, plan.value)) == Success(false)
  {
  }

  /** Any action but a publish deletes the action's own path below the transport URI, not the encoded path,
      and succeeds when the resource is already gone. */
  lemma UnpublishDeletesActionPath(share: Share, fault: FaultOracle, delivery: Delivery, action: ReplicationAction,
                                   schema: string, endpoint: JString, endpointPath: string -> string)
    requires delivery.webdavShare.Some? && delivery.path.Some? && action.actionType != Activate
    ensures var transportUri := schema + Appended(endpoint) + endpointPath(delivery.webdavShare.value);
      PlanDelivery(delivery, action, schema, endpoint, endpointPath) == Success(Remove(transportUri + action.path))
    ensures var url := schema + Appended(endpoint) + endpointPath(delivery.webdavShare.value) + action.path;
      url !in share && fault(DELETE(url)).None? ==>
        DeliveryResult(Remove(url), RunPlan(share, fault, Remove(url))) == Success(true)
  {
  }

  /** The basic credentials installed for every host: the WebDAV user and its stored password. */
  datatype AuthScope = AnyScope
  datatype Credentials = Credentials(scope: AuthScope, user: string, password: JString)

  /** createCredentialsProvider over the client's settings: credentials when a WebDAV user is set, else none. */
  function CredentialsOf(s: ClientSettings): (r: Option<Credentials>)
    ensures r.Some? <==> IsNotEmpty(s.webDavUser)
    ensures r.Some? ==> r.value == Credentials(AnyScope, s.webDavUser.value, s.webDavUserPassword)
  {
    if IsNotEmpty(s.webDavUser) then Some(Credentials(AnyScope, s.webDavUser.value, s.webDavUserPassword)) else None
  }

  /** createCredentialsProvider. */
  function CreateCredentialsProvider(client: DemandwareClient): (r: Option<Credentials>)
    reads client
    ensures r == CredentialsOf(client.Settings())
  {
    if IsNotEmpty(client.GetWebDavUser()) then
      Some(Credentials(AnyScope, client.GetWebDavUser().value, client.GetWebDavUserPassword()))
    else None
  }

  /** After an activation, credentials are installed exactly when the configuration names a non-empty WebDAV
      user, and they carry the password as stored (decrypted when it was protected). */
  lemma ActivatedCredentials(config: Properties, crypto: CryptoSupport, prior: ClientSettings)
    requires Activation(config, crypto, prior).outcome.Pass?
    ensures var c := CredentialsOf(Activation(config, crypto, prior).settings);
      (c.Some? <==> WebDavUserKey in config && config[WebDavUserKey] != "")
      && (c.Some? ==> c.value == Credentials(AnyScope, config[WebDavUserKey], StoredPassword(config, crypto).value))
  {
    ActivationPass(config, crypto, prior);
  }
}
