/**
 * The request/response envelopes exchanged on the `recipes` floodsub topic
 * and the routing decision taken for every received message.
 *
 * JSON decoding is not modelled: it is an abstract partial function from the
 * payload bytes to an envelope, one per envelope type (`None` is a failed
 * `serde_json::from_slice`).
 */
module Protocol {
  import opened Wrappers
  import opened Catalog

  /** The textual form of a libp2p `PeerId` (`PeerId::to_string`). */
  type PeerId = string

  type Bytes = seq<bv8>

  datatype ListMode = All | One(peer: PeerId)

  datatype ListRequest = ListRequest(mode: ListMode)

  datatype ListResponse = ListResponse(mode: ListMode, data: seq<Recipe>, receiver: PeerId)

  /** What the floodsub handler does with one message. */
  datatype Action =
    | Surface(from: PeerId, records: seq<Recipe>)  // log every record of a response meant for us
    | Respond(receiver: PeerId)                    // build a response of our public recipes
    | Ignore

  /** The request half of the handler (main.rs:122-145): `All` always, `One(p)` only for us. */
  function OnRequest(mode: ListMode, local: PeerId, source: PeerId): (a: Action)
    ensures a.Respond? <==> (mode.All? || mode.peer == local)
    ensures a.Respond? ==> a.receiver == source
    ensures !a.Surface?
  {
    match mode
    case All => Respond(source)
    case One(p) => if p == local then Respond(source) else Ignore
  }

  /**
   * The handler as written: the second attempt decodes a `ListResponse`
   * again, where a `ListRequest` was meant.
   */
  function RouteAsWritten(local: PeerId, source: PeerId, payload: Bytes,
                          decodeResponse: Bytes -> Option<ListResponse>): Action
  {
    match decodeResponse(payload)
    case Some(resp) =>
      if resp.receiver == local then Surface(source, resp.data) else Ignore
    case None =>
      match decodeResponse(payload)
      case Some(req) => OnRequest(req.mode, local, source)
      case None => Ignore
  }

  /** As written, no message ever gets an answer: the request branch is dead. */
  lemma RouteAsWrittenNeverResponds(local: PeerId, source: PeerId, payload: Bytes,
                                    decodeResponse: Bytes -> Option<ListResponse>)
    ensures !RouteAsWritten(local, source, payload, decodeResponse).Respond?
  {
  }

  /**
   * As written, a message is shown exactly when it decodes as a response
   * addressed to this node, and then with all its records, credited to the
   * sender.
   */
  lemma RouteAsWrittenSurfacesOnlyOwnResponses(local: PeerId, source: PeerId, payload: Bytes,
                                               decodeResponse: Bytes -> Option<ListResponse>)
    ensures var a := RouteAsWritten(local, source, payload, decodeResponse);
      && (a.Surface? <==> decodeResponse(payload).Some? && decodeResponse(payload).value.receiver == local)
      && (a.Surface? ==> a.records == decodeResponse(payload).value.data && a.from == source)
  {
  }

  /**
   * A concrete witness: a payload that is a well-formed `All` request (and no
   * response) is answered by the corrected handler and dropped as written.
   */
  lemma AllRequestDroppedAsWritten(local: PeerId, source: PeerId, payload: Bytes,
                                   decodeResponse: Bytes -> Option<ListResponse>,
                                   decodeRequest: Bytes -> Option<ListRequest>)
    requires decodeResponse(payload) == None
    requires decodeRequest(payload) == Some(ListRequest(All))
    ensures RouteAsWritten(local, source, payload, decodeResponse) == Ignore
    ensures Route(local, source, payload, decodeResponse, decodeRequest) == Respond(source)
  {
  }

  /**
   * The handler as intended: try a response first, then a request; drop
   * anything that is neither.
   */
  function Route(local: PeerId, source: PeerId, payload: Bytes,
                 decodeResponse: Bytes -> Option<ListResponse>,
                 decodeRequest: Bytes -> Option<ListRequest>): (a: Action)
    ensures a.Surface? ==> decodeResponse(payload).Some? && a.from == source
  {
    match decodeResponse(payload)
    case Some(resp) =>
      if resp.receiver == local then Surface(source, resp.data) else Ignore
    case None =>
      match decodeRequest(payload)
      case Some(req) => OnRequest(req.mode, local, source)
      case None => Ignore
  }

  /** A response is shown exactly when it is addressed to this node, and then in full. */
  lemma RouteSurfacesOnlyOwnResponses(local: PeerId, source: PeerId, payload: Bytes,
                                      decodeResponse: Bytes -> Option<ListResponse>,
                                      decodeRequest: Bytes -> Option<ListRequest>)
    ensures var a := Route(local, source, payload, decodeResponse, decodeRequest);
      && (a.Surface? <==> decodeResponse(payload).Some? && decodeResponse(payload).value.receiver == local)
      && (a.Surface? ==> a.records == decodeResponse(payload).value.data)
  {
  }

  /**
   * A request is answered exactly when it is `All` or names this node, and
   * the answer goes back to the requesting peer. Anything that decodes as a
   * response is never answered, and undecodable traffic is dropped.
   */
  lemma RouteAnswersRequests(local: PeerId, source: PeerId, payload: Bytes,
                             decodeResponse: Bytes -> Option<ListResponse>,
                             decodeRequest: Bytes -> Option<ListRequest>)
    ensures var a := Route(local, source, payload, decodeResponse, decodeRequest);
      && (a.Respond? <==>
            decodeResponse(payload).None? && decodeRequest(payload).Some?
            && (decodeRequest(payload).value.mode.All? || decodeRequest(payload).value.mode.peer == local))
      && (a.Respond? ==> a.receiver == source)
      && (decodeResponse(payload).None? && decodeRequest(payload).None? ==> a == Ignore)
  {
  }

  /** A `One(p)` request for another node produces no response. */
  lemma RouteIgnoresOthersRequests(local: PeerId, source: PeerId, payload: Bytes, target: PeerId,
                                   decodeResponse: Bytes -> Option<ListResponse>,
                                   decodeRequest: Bytes -> Option<ListRequest>)
    requires decodeResponse(payload) == None
    requires decodeRequest(payload) == Some(ListRequest(One(target)))
    requires target != local
    ensures Route(local, source, payload, decodeResponse, decodeRequest) == Ignore
  {
  }

  /**
   * The response `respond_with_public_recipes` builds: mode `All`, the
   * public recipes, addressed to the requesting peer.
   */
  function PublicResponse(catalog: seq<Recipe>, receiver: PeerId): ListResponse {
    ListResponse(All, PublicRecipes(catalog), receiver)
  }

  /**
   * The response carries exactly the public recipes, in catalog order, and
   * goes back to the requester.
   */
  lemma PublicResponseContents(catalog: seq<Recipe>, receiver: PeerId)
    ensures var resp := PublicResponse(catalog, receiver);
      && resp.receiver == receiver
      && resp.mode == All
      && (forall x :: x in resp.data <==> x in catalog && x.public)
      && (forall k :: 0 <= k < |catalog| ==>
            PublicRecipes(catalog[..k + 1]) == PublicRecipes(catalog[..k]) + (if catalog[k].public then [catalog[k]] else []))
  {
    forall k | 0 <= k < |catalog|
      ensures PublicRecipes(catalog[..k + 1]) == PublicRecipes(catalog[..k]) + (if catalog[k].public then [catalog[k]] else [])
    {
      assert catalog[..k + 1] == catalog[..k] + [catalog[k]];
      PublicRecipesAppend(catalog[..k], [catalog[k]]);
      assert [catalog[k]][1..] == [];
    }
  }
}
