/**
 * One recipe node: the handlers the event loop runs for a line of input,
 * an mDNS event, a floodsub message and a queued response.
 *
 * The loop itself (`tokio::select!` over stdin, the swarm and the response
 * channel) is not modelled; each handler is one iteration's work, and the
 * order in which they run is the caller's.
 */
module Node {
  import opened Wrappers
  import opened Text
  import opened Catalog
  import opened Protocol
  import opened Store
  import opened Commands
  import opened Membership

  /** Why the process panics. */
  datatype Panic =
    | UnknownCommand                  // a line no arm of the dispatcher accepts
    | CreateFailed(error: StoreError) // `create_new_recipe` returned an error
    | InvalidPublishId(text: string)  // the id after `publish r` is not a `usize`

  /** What handling one input line leaves for the user, besides the new state. */
  datatype Outcome =
    | Continue
    | PeersListed(peers: set<PeerId>)
    | LocalListed(recipes: Option<seq<Recipe>>)
    | Panicked(reason: Panic)

  datatype MdnsEvent =
    | Discovered(list: seq<(PeerId, Multiaddr)>)
    | Expired(list: seq<(PeerId, Multiaddr)>)

  class Node {
    const localId: PeerId
    const file: RecipeFile
    const view: PartialView
    /** The requests handed to floodsub for the `recipes` topic, oldest first. */
    var published: seq<ListRequest>
    /** The response channel (`mpsc::unbounded_channel`), oldest first. */
    var pending: seq<ListResponse>
    /** The recipes of every response shown to the user, in order. */
    var shown: seq<Recipe>

    constructor (localId: PeerId, file: RecipeFile)
      ensures this.localId == localId && this.file == file
      ensures fresh(view) && view.peers == {}
      ensures published == [] && pending == [] && shown == []
    {
      this.localId := localId;
      this.file := file;
      this.view := new PartialView();
      published, pending, shown := [], [], [];
    }

    /**
     * One line of user input, dispatched on its prefix. `discovered` is what
     * mDNS reports for `ls p` (one entry per known address).
     */
    method HandleLine(line: string, discovered: seq<PeerId>) returns (out: Outcome)
      modifies this`published, file`contents
      ensures Dispatch(line) == ListPeers ==>
        out.PeersListed? && (forall p :: p in out.peers <==> p in discovered)
      ensures Dispatch(line) == ListRecipes ==>
        var req := RequestOf(ParseListAsWritten(line));
        && (req.Some? ==> out == Continue && published == old(published) + [req.value])
        && (req.None? ==> out == LocalListed(old(file.contents)) && published == old(published))
      ensures Dispatch(line) == CreateRecipes ==>
        match ParseCreate(line)
        case Fields(name, ingredients, instructions) =>
          var ok := old(file.contents).Some? && NextId(old(file.contents).value) <= USIZE_MAX && file.writable;
          && (ok ==> out == Continue
                     && file.contents == Some(Created(old(file.contents).value, name, ingredients, instructions)))
          && (!ok ==> out.Panicked? && out.reason.CreateFailed? && file.contents == old(file.contents))
        case _ => out == Continue && file.contents == old(file.contents)
      ensures Dispatch(line) == PublishRecipes ==>
        match ParsePublish(line)
        case Id(id) =>
          && out == Continue
          && file.contents ==
               if old(file.contents).Some? && file.writable then Some(Published(old(file.contents).value, id))
               else old(file.contents)
        case InvalidId(text) => out == Panicked(InvalidPublishId(text)) && file.contents == old(file.contents)
        case NotPublish => false
      ensures Dispatch(line) == Unknown ==> out == Panicked(UnknownCommand)
      ensures Dispatch(line) != ListRecipes ==> published == old(published)
      ensures Dispatch(line) !in {CreateRecipes, PublishRecipes} ==> file.contents == old(file.contents)
    {
      DispatchByPrefix(line);
      match Dispatch(line)
      case ListPeers =>
        var unique := HandleListPeers(discovered);
        out := PeersListed(unique);
      case ListRecipes =>
        out := HandleList(ParseListAsWritten(line));
      case CreateRecipes =>
        out := Continue;
        match ParseCreate(line) {
          case Fields(name, ingredients, instructions) =>
            var r := CreateNewRecipe(file, name, ingredients, instructions);
            if r.Err? {
              out := Panicked(CreateFailed(r.error));
            }
          case _ =>
        }
      case PublishRecipes =>
        match ParsePublish(line) {
          case Id(id) =>
            var _ := PublishRecipe(file, id);
            out := Continue;
          case InvalidId(text) =>
            out := Panicked(InvalidPublishId(text));
          case NotPublish =>
            assert false;
        }
      case Unknown =>
        out := Panicked(UnknownCommand);
    }

    /**
     * `handle_list_recipes` once its argument is parsed: broadcast the
     * request, or list the local catalog. The event loop passes
     * `ParseListAsWritten(line)`; `ParseList(line)` gives the intended
     * commands.
     */
    method HandleList(lc: ListCommand) returns (out: Outcome)
      modifies this`published
      ensures var req := RequestOf(lc);
        && (req.Some? ==> out == Continue && published == old(published) + [req.value])
        && (req.None? ==> out == LocalListed(file.contents) && published == old(published))
    {
      var req := RequestOf(lc);
      if req.Some? {
        published := published + [req.value];
        out := Continue;
      } else {
        var read := file.Read();
        out := LocalListed(if read.Ok? then Some(read.value) else None);
      }
    }

    /** The mDNS handler: discovered peers join the view, expired ones leave it unless mDNS still knows them. */
    method OnMdnsEvent(event: MdnsEvent, mdnsNodes: set<PeerId>)
      modifies view
      ensures event.Discovered? ==> view.peers == old(view.peers) + PeersOf(event.list)
      ensures event.Expired? ==> view.peers == old(view.peers) - (PeersOf(event.list) - mdnsNodes)
    {
      match event
      case Discovered(list) => view.OnDiscovered(list);
      case Expired(list) => view.OnExpired(list, mdnsNodes);
    }

    /**
     * Carry out a routing decision: show a response's records, or answer a
     * request by queueing a response built from the public recipes (nothing
     * is queued when the catalog cannot be read).
     */
    method Act(a: Action)
      modifies this`pending, this`shown
      ensures shown == old(shown) + (if a.Surface? then a.records else [])
      ensures pending == old(pending) +
        (if a.Respond? && file.contents.Some? then [PublicResponse(file.contents.value, a.receiver)] else [])
    {
      match a
      case Surface(_, records) =>
        shown := shown + records;
      case Respond(receiver) =>
        var resp := RespondWithPublicRecipes(file, receiver);
        if resp.Some? {
          pending := pending + [resp.value];
        }
      case Ignore =>
    }

    /**
     * The floodsub handler as written: a response addressed to this node is
     * shown; since the second decode expects a response again, no request is
     * ever answered and the response channel never grows.
     */
    method OnMessage(source: PeerId, payload: Bytes, decodeResponse: Bytes -> Option<ListResponse>)
      modifies this`pending, this`shown
      ensures var a := RouteAsWritten(localId, source, payload, decodeResponse);
        shown == old(shown) + (if a.Surface? then a.records else [])
      ensures pending == old(pending)
    {
      RouteAsWrittenNeverResponds(localId, source, payload, decodeResponse);
      Act(RouteAsWritten(localId, source, payload, decodeResponse));
    }

    /** The floodsub handler as intended: a request meant for this node is answered. */
    method OnMessageIntended(source: PeerId, payload: Bytes,
                             decodeResponse: Bytes -> Option<ListResponse>,
                             decodeRequest: Bytes -> Option<ListRequest>)
      modifies this`pending, this`shown
      ensures var a := Route(localId, source, payload, decodeResponse, decodeRequest);
        && shown == old(shown) + (if a.Surface? then a.records else [])
        && pending == old(pending) +
             (if a.Respond? && file.contents.Some? then [PublicResponse(file.contents.value, a.receiver)] else [])
    {
      Act(Route(localId, source, payload, decodeResponse, decodeRequest));
    }

    /**
     * A queued response reaches the event loop, which drops it: nothing is
     * published, so no response ever leaves the node.
     */
    method OnResponse()
      requires pending != []
      modifies this`pending
      ensures pending == old(pending)[1..]
      ensures published == old(published)
    {
      pending := pending[1..];
    }
  }

  /**
   * A fresh catalog, `create r Soup|water,salt|boil`, then `publish r 0`
   * (parsed as `ParseCreateKeepsLeadingSpace` and `ParsePublishAsTyped` show):
   * the recipe gets id 0, and the response `respond_with_public_recipes`
   * builds holds exactly that recipe, now public, under the name " Soup".
   */
  lemma SoupScenario(requester: PeerId)
    ensures var catalog := Published(Created([], " Soup", "water,salt", "boil"), 0);
      PublicResponse(catalog, requester).data == [Recipe(0, " Soup", "water,salt", "boil", true)]
  {
    var created := Created([], " Soup", "water,salt", "boil");
    assert created == [Recipe(0, " Soup", "water,salt", "boil", false)];
    var catalog := Published(created, 0);
    assert catalog[0] == Recipe(0, " Soup", "water,salt", "boil", true);
    PublicRecipesExtremes(catalog);
  }
}
