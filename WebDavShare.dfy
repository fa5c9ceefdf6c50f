/**
 * The remote WebDAV share as the transport sees it through a Sardine session.
 * The share is a map from URL to resource; each request is served by the
 * methods of section 9 of RFC 4918 (HEAD for "exists", MKCOL, PUT, DELETE),
 * and a fault oracle stands for everything the network and the server may
 * refuse. Failed requests change nothing. The map holds only what lies below
 * the share's root, so a missing parent collection is not detected; a parent
 * that is a document is.
 */
module WebDavShare {
  import opened Wrappers
  import opened Encodings

  datatype Resource = Collection | Document(data: seq<byte>, contentType: string)

  type Share = map<string, Resource>

  /** The requests a Sardine session sends. */
  datatype Request =
    | HEAD(url: string)
    | MKCOL(url: string)
    | PUT(url: string, data: seq<byte>, contentType: string)
    | DELETE(url: string)

  /** A SardineException carries the HTTP status; any other IOException carries none. */
  datatype Failure = StatusFailure(status: int) | IoFailure

  const NotFound := 404
  const MethodNotAllowed := 405
  const Conflict := 409

  /** What the network and the server refuse, request by request. */
  type FaultOracle = Request -> Option<Failure>

  ghost predicate NoFaults(fault: FaultOracle) {
    forall req :: fault(req).None?
  }

  /** The share after a request, and the answer: for HEAD whether the URL exists, otherwise true. */
  datatype Reply = Reply(share: Share, result: Result<bool, Failure>)

  /** The URLs a DELETE of root removes: root itself and, for a collection, everything below it. */
  predicate InTree(root: string, url: string) {
    url == root || (|root| < |url| && url[..|root|] == root && url[|root|] == '/')
  }

  /** Some proper ancestor of url is a document in the share, so url has no parent collection. */
  predicate BelowDocument(share: Share, url: string) {
    exists i :: 0 <= i < |url| && url[i] == '/' && url[..i] in share && share[url[..i]].Document?
  }

  /** A share that grew only by collections has no new documents above any URL. */
  lemma BelowDocumentGrows(share: Share, bigger: Share, url: string)
    requires forall u :: u in share ==> u in bigger && bigger[u] == share[u]
    requires forall u :: u in bigger && u !in share ==> bigger[u] == Collection
    ensures BelowDocument(bigger, url) ==> BelowDocument(share, url)
  {
    if BelowDocument(bigger, url) {
      var i :| 0 <= i < |url| && url[i] == '/' && url[..i] in bigger && bigger[url[..i]].Document?;
      assert url[..i] in share;
    }
  }

  function RemoveTree(share: Share, root: string): (r: Share)
    ensures forall u :: u in r <==> u in share && !InTree(root, u)
    ensures forall u :: u in r ==> r[u] == share[u]
  {
    map u | u in share && !InTree(root, u) :: share[u]
  }

  /** How the share answers one request. */
  function Serve(share: Share, fault: FaultOracle, req: Request): (reply: Reply)
    ensures reply.result.Failure? ==> reply.share == share
    ensures req.HEAD? ==> reply.share == share
  {
    match fault(req)
    case Some(f) => Reply(share, Failure(f))
    case None =>
      match req
      case HEAD(url) => Reply(share, Success(url in share))
      case MKCOL(url) =>
        // section 9.3.1 of RFC 4918: MKCOL on an existing resource is refused with 405,
        // one without a parent collection with 409
        if url in share then Reply(share, Failure(StatusFailure(MethodNotAllowed)))
        else if BelowDocument(share, url) then Reply(share, Failure(StatusFailure(Conflict)))
        else Reply(share[url := Collection], Success(true))
      case PUT(url, data, contentType) =>
        // section 9.7.1 of RFC 4918: a PUT without a parent collection is refused with 409
        if BelowDocument(share, url) then Reply(share, Failure(StatusFailure(Conflict)))
        else if url in share && share[url].Collection? then Reply(share, Failure(StatusFailure(MethodNotAllowed)))
        else Reply(share[url := Document(data, contentType)], Success(true))
      case DELETE(url) =>
        if url !in share then Reply(share, Failure(StatusFailure(NotFound)))
        else Reply(RemoveTree(share, url), Success(true))
  }

  /** A HEAD never changes the share and answers whether the URL exists. */
  lemma ServeHead(share: Share, fault: FaultOracle, url: string)
    requires fault(HEAD(url)).None?
    ensures Serve(share, fault, HEAD(url)) == Reply(share, Success(url in share))
  {
  }

  /** A successful MKCOL adds exactly one collection, and only where nothing was. */
  lemma ServeMkcol(share: Share, fault: FaultOracle, url: string)
    ensures var reply := Serve(share, fault, MKCOL(url));
      reply.result.Success? <==> fault(MKCOL(url)).None? && url !in share && !BelowDocument(share, url)
    ensures var reply := Serve(share, fault, MKCOL(url));
      reply.result.Success? ==> reply.share == share[url := Collection]
  {
  }

  /** A MKCOL or PUT below a document is refused with 409 (Conflict) unless the network failed first. */
  lemma ServeBelowDocument(share: Share, fault: FaultOracle, parent: string, name: string,
                           data: seq<byte>, contentType: string)
    requires parent in share && share[parent].Document?
    requires parent + "/" + name !in share
    requires fault(MKCOL(parent + "/" + name)).None? && fault(PUT(parent + "/" + name, data, contentType)).None?
    ensures Serve(share, fault, MKCOL(parent + "/" + name)).result == Failure(StatusFailure(Conflict))
    ensures Serve(share, fault, PUT(parent + "/" + name, data, contentType)).result == Failure(StatusFailure(Conflict))
  {
    var url := parent + "/" + name;
    assert url[..|parent|] == parent && url[|parent|] == '/';
  }

  /** A DELETE of a missing URL reports 404 unless the network failed first; a successful one removes the tree. */
  lemma ServeDelete(share: Share, fault: FaultOracle, url: string)
    ensures fault(DELETE(url)).None? && url !in share ==>
      Serve(share, fault, DELETE(url)).result == Failure(StatusFailure(NotFound))
    ensures Serve(share, fault, DELETE(url)).result.Success? ==>
      url in share && Serve(share, fault, DELETE(url)).share.Keys == share.Keys - set u | u in share && InTree(url, u)
  {
  }

  /** A Sardine session: every request goes to the share and is recorded, in order. */
  class Sardine {
    const fault: FaultOracle
    var share: Share
    var requests: seq<Request>
    var open: bool

    constructor(share: Share, fault: FaultOracle)
      ensures this.share == share && this.fault == fault && requests == [] && open
    {
      this.share := share;
      this.fault := fault;
      requests := [];
      open := true;
    }

    /** exists: a HEAD request; true when the resource is there. */
    method Exists(url: string) returns (r: Result<bool, Failure>)
      modifies this
      ensures r == Serve(old(share), fault, HEAD(url)).result
      ensures share == old(share) && requests == old(requests) + [HEAD(url)] && open == old(open)
    {
      var reply := Serve(share, fault, HEAD(url));
      requests := requests + [HEAD(url)];
      r := reply.result;
    }

    /** createDirectory: a MKCOL request. */
    method CreateDirectory(url: string) returns (r: Outcome<Failure>)
      modifies this
      ensures var reply := Serve(old(share), fault, MKCOL(url));
        share == reply.share && (r.Pass? <==> reply.result.Success?) && (r.Fail? ==> r.error == reply.result.error)
      ensures requests == old(requests) + [MKCOL(url)] && open == old(open)
    {
      var reply := Serve(share, fault, MKCOL(url));
      share := reply.share;
      requests := requests + [MKCOL(url)];
      r := if reply.result.Success? then Pass else Fail(reply.result.error);
    }

    /** put: a PUT request carrying the data and its content type. */
    method Put(url: string, data: seq<byte>, contentType: string) returns (r: Outcome<Failure>)
      modifies this
      ensures var reply := Serve(old(share), fault, PUT(url, data, contentType));
        share == reply.share && (r.Pass? <==> reply.result.Success?) && (r.Fail? ==> r.error == reply.result.error)
      ensures requests == old(requests) + [PUT(url, data, contentType)] && open == old(open)
    {
      var reply := Serve(share, fault, PUT(url, data, contentType));
      share := reply.share;
      requests := requests + [PUT(url, data, contentType)];
      r := if reply.result.Success? then Pass else Fail(reply.result.error);
    }

    /** delete: a DELETE request. */
    method Delete(url: string) returns (r: Outcome<Failure>)
      modifies this
      ensures var reply := Serve(old(share), fault, DELETE(url));
        share == reply.share && (r.Pass? <==> reply.result.Success?) && (r.Fail? ==> r.error == reply.result.error)
      ensures requests == old(requests) + [DELETE(url)] && open == old(open)
    {
      var reply := Serve(share, fault, DELETE(url));
      share := reply.share;
      requests := requests + [DELETE(url)];
      r := if reply.result.Success? then Pass else Fail(reply.result.error);
    }

    /** shutdown: releases the connection pool; a failure there is only logged by the caller. */
    method Shutdown()
      modifies this
      ensures !open && share == old(share) && requests == old(requests)
    {
      open := false;
    }
  }
}
