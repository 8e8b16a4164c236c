# P2P recipe node: a Dafny model

A model of the recipe-sharing peer in `src/main.rs`. A node keeps a catalog of
recipes in `recipes.json`. It finds other nodes on the local network through mDNS and
joins the floodsub topic `recipes`. It reads commands from standard input. On the
topic, nodes exchange `ListRequest` / `ListResponse` envelopes to share
their public recipes.

The model keeps the deterministic rules and leaves the networking
libraries out:

- **Catalog** (`catalog.dfy`): the `Recipe` record; the id a new recipe
  gets (`max id + 1`, or 0); `publish_recipe` marking entries public in place
  on a buffer; the public-only filter behind a list response.
- **Store** (`store.dfy`): `recipes.json` as a class whose contents are
  either a catalog or unreadable, and which may refuse writes. On top of it
  sit `create_new_recipe`, `publish_recipe` and the catalog read of
  `respond_with_public_recipes`, each with its error cases.
- **Text** (`text.dfy`): `starts_with`, `strip_prefix`, `split`, `trim` and
  `parse::<usize>()` as Rust defines them, for a 64-bit `usize`.
- **Commands** (`commands.dfy`): the dispatch on an input line (`ls p`, then
  the prefixes `ls r`, `create r`, `publish r`, else a panic) and the three
  argument parsers.
- **Protocol** (`protocol.dfy`): the envelopes and the routing decision for
  a received message. A response is shown only when it is addressed to
  this node. The request branch (`src/main.rs:122-145`) answers an `All`
  request always, and a `One(p)` request only when `p` is this node's id.
  As written that branch is never reached, because the second decode
  (`src/main.rs:120`) reads a `ListResponse` again (see the findings);
  `Protocol.Route` is the handler with the second decode reading a
  request.
- **Membership** (`membership.dfy`): the floodsub partial view as a class
  updated by mDNS `Discovered` / `Expired` events, and the deduplicated
  `ls p` listing.
- **Bootstrap** (`bootstrap.dfy`): the addresses dialled for
  `BOOTSTRAP_PEERS`.
- **Node** (`node.dfy`): one node's state (its id, the file, the partial
  view, the requests it published, its response channel and what it
  showed), and one handler per kind of event the loop receives.

The commands and messages suggest more than the code does. The node model
follows the code as written:

- `ls r` alone sends `One("")` instead of listing the local catalog, and
  `ls r all` sends `One(" all")` (`Node.Node.HandleLine` uses
  `Commands.ParseListAsWritten`). A peer request typed as `ls r <peer>`
  sends `One(" <peer>")`. No peer id begins with a space, so that request
  would go unanswered even if requests were decoded correctly. See the
  findings.
- No request received from another node is ever answered, because the
  second decode expects a response again (`Node.Node.OnMessage` uses
  `Protocol.RouteAsWritten`). `Node.Node.OnMessageIntended` is the handler
  with the second decode reading a request. See the findings.
- A response taken from the channel is dropped and never published
  (`Node.Node.OnResponse`).
- An unknown command, a failed create and an invalid publish id all end in
  a panic (`Node.Panic`) instead of a reported error.
- A `create r` line with at least three `|`-separated fields panics on a
  node that has no readable `recipes.json`, because the catalog read
  fails. With fewer fields nothing is created and nothing panics.
- The create fields are not trimmed, so `create r Soup|...` names the
  recipe `" Soup"`.

## Model

| member | source | states |
|---|---|---|
| `Text.StripPrefix` | src/main.rs:266 | the rest exists exactly when the line starts with the prefix, and prefix + rest is the line |
| `Text.Split` | src/main.rs:268 | at least one piece; no piece contains the separator; joining the pieces with it gives the input back |
| `Text.SplitJoin` | src/main.rs:268 | splitting a join of separator-free pieces returns those pieces |
| `Text.SplitCount` | src/main.rs:268-270 | the number of pieces is the number of separators plus one |
| `Text.Trim` | src/main.rs:319 | the result neither starts nor ends with Unicode whitespace |
| `Text.TrimPadded` | src/main.rs:319 | trimming removes exactly the surrounding whitespace and keeps the middle unchanged |
| `Text.ParseUsize` | src/main.rs:319 | a parsed value fits in `usize`, and the text was an optional `+` followed by at least one digit, so a lone `+` is rejected |
| `Text.ParseUsizeRoundTrip` | src/main.rs:319 | every `usize` written in decimal, with or without `+`, parses back to itself |
| `Text.ParseUsizeLeadingZeros` | src/main.rs:319 | any run of `0`s before the decimal text of a `usize`, with or without `+`, still reads as that number |
| `Text.ParseUsizeOverflow` | src/main.rs:319 | a number above `usize::MAX` is rejected instead of wrapping |
| `Catalog.NextId` | src/main.rs:291-294 | 0 for an empty catalog; greater than every existing id, so it never collides |
| `Catalog.NextIdAttained` | src/main.rs:291-292 | the new id is some existing id plus one, so it is exactly max + 1 |
| `Catalog.NextIdOfIndexed` | src/main.rs:291-294 | on a catalog numbered 0..n-1 the next id is n |
| `Catalog.CreatedShape` | src/main.rs:297-303 | create appends one recipe at the end with the given texts and `public == false`; earlier entries are unchanged; the new id exceeds all old ones |
| `Catalog.CreatePreservesUniqueIds` | src/main.rs:291-303 | creating keeps all ids distinct |
| `Catalog.CreateKeepsIdsSequential` | src/main.rs:291-303 | successive creates from an empty catalog hand out 0, 1, 2, ... |
| `Catalog.Mark` | src/main.rs:339 | one entry after publishing: same id and texts; public iff it was public or its id matches |
| `Catalog.Published` | src/main.rs:339 | same length; every entry is marked at its own position |
| `Catalog.PublishUnknownIdIsNoOp` | src/main.rs:339 | an id no entry has leaves the catalog identical |
| `Catalog.PublishIdempotent` | src/main.rs:339 | publishing twice equals publishing once |
| `Catalog.PublishEffect` | src/main.rs:339 | length, order and ids are kept; matching entries become public and nothing else in them changes; other entries are unchanged |
| `Catalog.PublishKeepsIds` | src/main.rs:339 | publishing keeps unique ids unique, a 0..n-1 numbering intact, and the next id unchanged |
| `Catalog.PublishInPlace` | src/main.rs:339 | the in-place loop over the loaded buffer produces exactly the published catalog |
| `Catalog.PublicRecipes` | src/main.rs:419 | the response data holds exactly the public recipes of the catalog, and no more entries than it |
| `Catalog.PublicRecipesAppend` | src/main.rs:419 | the filter distributes over concatenation, so catalog order is kept |
| `Catalog.PublicRecipesExtremes` | src/main.rs:419 | an all-public catalog is returned whole; one with nothing public gives nothing |
| `Catalog.CreateHidesNewRecipe` | src/main.rs:302 | a newly created recipe is private and does not change what other peers receive |
| `Catalog.PublishRevealsRecipe` | src/main.rs:339 | after publishing an id, each recipe with that id is in the public answer |
| `Protocol.OnRequest` | src/main.rs:122-145 | answers iff the mode is `All` or names the local id; the answer goes to the requesting peer |
| `Protocol.RouteAsWrittenSurfacesOnlyOwnResponses` | src/main.rs:110-117 | as written, a message is shown iff it decodes as a response addressed to this node, and then with all its records, credited to the sender |
| `Protocol.RouteAsWrittenNeverResponds` | src/main.rs:110-146 | as written, no message is ever answered, because the second decode repeats the first |
| `Protocol.AllRequestDroppedAsWritten` | src/main.rs:120 | a well-formed `All` request is dropped as written and answered by the corrected handler |
| `Protocol.Route` | src/main.rs:108-147 | a message is shown only if it decoded as a response, and it is attributed to its source |
| `Protocol.RouteSurfacesOnlyOwnResponses` | src/main.rs:110-117 | a response is shown iff its receiver is the local id, and then with all its records |
| `Protocol.RouteAnswersRequests` | src/main.rs:119-145 | answered iff the payload is not a response, is a request, and is `All` or `One(local)`; the reply goes to the source; undecodable payloads are ignored |
| `Protocol.RouteIgnoresOthersRequests` | src/main.rs:134-144 | a `One(p)` request with p other than the local id gets no response |
| `Protocol.PublicResponseContents` | src/main.rs:415-420 | the response has mode `All`, receiver = the requester, and data = exactly the public recipes, built in catalog order |
| `Store.RecipeFile.Read` | src/main.rs:345-351 | returns the catalog when the file holds one, otherwise a read error |
| `Store.RecipeFile.Write` | src/main.rs:353-360 | replaces the whole catalog when writable; otherwise a write error and no change |
| `Store.CreateNewRecipe` | src/main.rs:286-313 | read error, id overflow or write error leave the file unchanged; otherwise the file holds the old catalog with the new recipe appended |
| `Store.PublishRecipe` | src/main.rs:336-343 | read or write error leaves the file unchanged; otherwise the file holds the published catalog, even for an unknown id |
| `Store.RespondWithPublicRecipes` | src/main.rs:407-430 | a response exists iff the catalog can be read, and it is the public response for the requester |
| `Commands.DispatchByPrefix` | src/main.rs:238-243 | each handler is chosen exactly by its prefix (exact `ls p`); everything else is unknown |
| `Commands.ParseCreate` | src/main.rs:264-284 | not a create unless the prefix is `create r`; fewer than three fields means no create; no field contains a pipe character |
| `Commands.ParseCreateNeedsTwoBars` | src/main.rs:268-272 | the fields are accepted iff the arguments hold at least two pipe characters |
| `Commands.ParseCreateRoundTrip` | src/main.rs:266-277 | the first three fields come back verbatim, whitespace included; extra fields are ignored |
| `Commands.ParseCreateKeepsLeadingSpace` | src/main.rs:266-277 | the line `create r` + name, ingredients, instructions joined by pipes yields those three fields verbatim, so `create r Soup` names the recipe `" Soup"` with its leading space |
| `Commands.ParsePublish` | src/main.rs:315-334 | not a publish unless the prefix is `publish r`; an invalid id is reported trimmed |
| `Commands.ParsePublishRoundTrip` | src/main.rs:317-321 | any `usize` with any surrounding whitespace is read back as that id |
| `Commands.ParsePublishAsTyped` | src/main.rs:317-321 | `publish r` followed by a space and any `usize` in decimal publishes that id, so `publish r 0` publishes id 0 |
| `Commands.ParsePublishRejectsMissing` | src/main.rs:319-331 | `publish r` followed by nothing but whitespace gives the invalid id `""` |
| `Commands.ParsePublishRejectsNegative` | src/main.rs:319-331 | any id text beginning with `-` is invalid, whatever follows the sign, and the reported text keeps the sign |
| `Commands.ParsePublishRejectsMinusOne` | src/main.rs:319-331 | `publish r -1` reports the invalid id `"-1"` |
| `Commands.ParsePublishRejectsOverflow` | src/main.rs:319-331 | an id above `usize::MAX` is invalid |
| `Commands.RequestOf` | src/main.rs:368-387 | `All` and `One(p)` list commands publish the matching request; the local listing publishes nothing |
| `Commands.ParseListAsWrittenQuirks` | src/main.rs:364-389 | under the `ls r` guard the local-listing arm is dead; `All` needs `ls rall`; every other line asks for the peer named by the rest after `ls r`, so `ls r all` asks for `" all"` and `ls r` for `""` |
| `Commands.ParseListAsWrittenPeer` | src/main.rs:364-380 | `ls r <peer>` asks for the peer `" <peer>"`, with a leading space |
| `Commands.ParseListIntended` | src/main.rs:362-404 | corrected: `ls r` lists locally, `ls r all` asks everyone, `ls r <p>` asks peer p |
| `Membership.PartialView.OnDiscovered` | src/main.rs:82-88 | the view gains exactly the discovered peers |
| `Membership.PartialView.OnExpired` | src/main.rs:90-99 | the view loses exactly the expired peers that mDNS no longer has |
| `Membership.DiscoverIdempotent` | src/main.rs:82-88 | discovering the same peers twice equals once |
| `Membership.ExpiredMembership` | src/main.rs:90-99 | after an expiry a peer stays iff it was in the view and was not named, or mDNS still has it |
| `Membership.HandleListPeers` | src/main.rs:250-262 | the listing contains exactly the discovered peers, each once, and is no longer than the input |
| `Membership.DistinctNodesAllListed` | src/main.rs:254-258 | without repeats, the listing has exactly one entry per input node |
| `Bootstrap.EntryTarget` | src/main.rs:202-206 | an entry is dialled iff it contains `:`; the address starts with `/dns4/` |
| `Bootstrap.Targets` | src/main.rs:201-206 | at most one address per entry, each starting with `/dns4/` |
| `Bootstrap.BootstrapDials` | src/main.rs:200-213 | the loop dials exactly the addresses of the non-empty comma-separated entries, in order |
| `Bootstrap.BootstrapRoundTrip` | src/main.rs:200-206 | `h1:p1,h2:p2,...` dials `/dns4/h1/tcp/p1`, `/dns4/h2/tcp/p2`, ... in order |
| `Bootstrap.TargetsOfEntries` | src/main.rs:201-206 | a list of `host:port` entries maps, in order, to their `/dns4/` addresses |
| `Bootstrap.EntryTargetOf` | src/main.rs:202-204 | `host:port` is dialled as `/dns4/host/tcp/port` |
| `Node.Node.constructor` | src/main.rs:175-182 | a node starts with an empty view, nothing published, an empty channel and nothing shown |
| `Node.Node.HandleLine` | src/main.rs:238-243 | per dispatched command: the peer listing; for `ls r`, the request of `ParseListAsWritten` is published, so `ls r all` sends `One(" all")`; the created or published catalog; or the panic; nothing else changes |
| `Node.Node.HandleList` | src/main.rs:362-405 | a parsed list command either appends its request to the published ones, or lists the file's catalog and publishes nothing |
| `Node.Node.OnMdnsEvent` | src/main.rs:79-101 | discovered peers are added; expired peers are removed unless mDNS still has them |
| `Node.Node.Act` | src/main.rs:110-145 | a routing decision shows exactly a surfaced response's records, and for an answered request queues the public response when the catalog is readable |
| `Node.Node.OnMessage` | src/main.rs:107-148 | shows the records of a response addressed to this node; the response channel never grows, since as written no request is answered |
| `Node.Node.OnMessageIntended` | src/main.rs:107-148 | with the second decode reading a request, a request for this node queues the public response for the requester |
| `Node.Node.OnResponse` | src/main.rs:236 | the queued response is removed from the channel and nothing is published |
| `Node.SoupScenario` | src/main.rs:286-343 | after create then publish on an empty catalog, the response `respond_with_public_recipes` would build holds exactly one public recipe, id 0, named `" Soup"` |

## Left out

- The tokio event loop, `select!` and `tokio::spawn`. `Node.Node` has one
  handler per event, and the caller decides their order. The spawned
  response task reads the catalog when the request is handled, not later.
- libp2p: the transport, noise, mplex, swarm construction and floodsub
  dissemination. `Node.Node.published` records the requests handed to
  floodsub, and nothing is delivered. mDNS state is a parameter: a set for
  `has_node`, a sequence for `discovered_nodes`.
- JSON: decoding is an abstract partial function per envelope type.
  Encoding is not modelled, so requests are recorded as values.
- File I/O: `recipes.json` is `Store.RecipeFile`. A failed write is assumed
  to leave the file unchanged (a real `fs::write` may truncate it).
  Concurrent access to the file is not modelled.
- Key generation and `PeerId` derivation: the node's id is a constructor
  argument. Peer ids are compared as their text.
- Logging, and the reading of `P2P_PORT` and `BOOTSTRAP_PEERS` from the
  environment.
- Listen-address and bootstrap `Multiaddr` parsing, and the panic on a bad
  address: `Bootstrap.BootstrapDials` gives the text that would be parsed.
- `src/cli.rs` and `src/commands/`: they only print, or declare enums.
- `Store.CreateNewRecipe`: an id overflow is modelled as the error that a debug
  build's panic amounts to. A release build would wrap the id to 0.
- `Text.ParseUsize`: assumes a 64-bit `usize`.
- `Membership.HandleListPeers`: the order in which the `HashSet` is printed is
  not modelled.

## Findings

| source | as written | input that shows it | evidently intended | confidence | as-written member | corrected member |
|---|---|---|---|---|---|---|
| src/main.rs:120 | the request branch decodes the payload as `ListResponse` again | a payload that decodes as a `ListRequest { mode: ALL }` but not as a `ListResponse` is dropped, so no request is ever answered | decode `ListRequest` in the second branch | high; not executed | `Protocol.RouteAsWritten` (`Protocol.RouteAsWrittenNeverResponds`, `Protocol.AllRequestDroppedAsWritten`) | `Protocol.Route` (`Protocol.RouteAnswersRequests`), used by `Node.Node.OnMessageIntended` |
| src/main.rs:364 | `strip_prefix("ls r")` without the following space | `ls r <peer>` becomes `One(" <peer>")`, an id no peer has, so such a request is never answered; `ls r all` becomes `One(" all")`; `ls r` becomes `One("")`; the local-listing arm is unreachable | `strip_prefix("ls r ")`, so `ls r` lists locally, `ls r all` asks everyone and `ls r <p>` asks p | high; not executed | `Commands.ParseListAsWritten` (`Commands.ParseListAsWrittenQuirks`, `Commands.ParseListAsWrittenPeer`) | `Commands.ParseList` (`Commands.ParseListIntended`), whose result `Node.Node.HandleList` accepts |
