/**
 * The floodsub partial view (the peers messages are flooded to), kept up to
 * date from mDNS discovery events, and the `ls p` peer listing.
 *
 * mDNS itself is not modelled: what it currently reports is passed in as a
 * set of peers (`has_node`) or a sequence that may repeat a peer
 * (`discovered_nodes`, one entry per address).
 */
module Membership {
  import opened Protocol

  /** A libp2p `Multiaddr`, kept as its text. */
  type Multiaddr = string

  /** The peers named by an mDNS event's list of (peer, address) pairs. */
  function PeersOf(list: seq<(PeerId, Multiaddr)>): (peers: set<PeerId>)
    ensures forall i :: 0 <= i < |list| ==> list[i].0 in peers
    ensures forall p :: p in peers ==> exists i :: 0 <= i < |list| && list[i].0 == p
  {
    set i | 0 <= i < |list| :: list[i].0
  }

  class PartialView {
    var peers: set<PeerId>

    constructor ()
      ensures peers == {}
    {
      peers := {};
    }

    /** `MdnsEvent::Discovered`: add every discovered peer to the view. */
    method OnDiscovered(discovered: seq<(PeerId, Multiaddr)>)
      modifies this
      ensures peers == old(peers) + PeersOf(discovered)
    {
      for i := 0 to |discovered|
        invariant peers == old(peers) + PeersOf(discovered[..i])
      {
        assert discovered[..i + 1] == discovered[..i] + [discovered[i]];
        peers := peers + {discovered[i].0};
      }
      assert discovered[..|discovered|] == discovered;
    }

    /**
     * `MdnsEvent::Expired`: drop an expired peer only when mDNS no longer
     * knows it through any address (`!has_node(peer)`).
     */
    method OnExpired(expired: seq<(PeerId, Multiaddr)>, mdnsNodes: set<PeerId>)
      modifies this
      ensures peers == old(peers) - (PeersOf(expired) - mdnsNodes)
    {
      for i := 0 to |expired|
        invariant peers == old(peers) - (PeersOf(expired[..i]) - mdnsNodes)
      {
        assert expired[..i + 1] == expired[..i] + [expired[i]];
        var peer := expired[i].0;
        if peer !in mdnsNodes {
          peers := peers - {peer};
        }
      }
      assert expired[..|expired|] == expired;
    }
  }

  /** Discovering the same peers again changes nothing. */
  lemma DiscoverIdempotent(view: set<PeerId>, discovered: seq<(PeerId, Multiaddr)>)
    ensures (view + PeersOf(discovered)) + PeersOf(discovered) == view + PeersOf(discovered)
  {
  }

  /**
   * After an expiry, a peer is in the view exactly when it was before and
   * either was not named, or mDNS still reports it; peers not named are
   * untouched.
   */
  lemma ExpiredMembership(view: set<PeerId>, expired: seq<(PeerId, Multiaddr)>, mdnsNodes: set<PeerId>, p: PeerId)
    ensures p in view - (PeersOf(expired) - mdnsNodes) <==>
      p in view && ((forall i :: 0 <= i < |expired| ==> expired[i].0 != p) || p in mdnsNodes)
  {
  }

  /**
   * `handle_list_peers`: collect mDNS's discovered nodes into a `HashSet`,
   * which drops repeated peers.
   */
  method HandleListPeers(nodes: seq<PeerId>) returns (unique: set<PeerId>)
    ensures forall p :: p in unique <==> p in nodes
    ensures |unique| <= |nodes|
  {
    unique := {};
    for i := 0 to |nodes|
      invariant forall p :: p in unique <==> p in nodes[..i]
      invariant |unique| <= i
    {
      unique := unique + {nodes[i]};
    }
    assert nodes[..|nodes|] == nodes;
  }

  /** The listing has one entry per distinct peer: no fewer than `nodes` when nothing repeats. */
  lemma {:induction false} DistinctNodesAllListed(nodes: seq<PeerId>)
    requires forall i, j :: 0 <= i < j < |nodes| ==> nodes[i] != nodes[j]
    ensures |set p | p in nodes| == |nodes|
  {
    if nodes != [] {
      var last := nodes[|nodes| - 1];
      var front := nodes[..|nodes| - 1];
      DistinctNodesAllListed(front);
      assert (set p | p in nodes) == (set p | p in front) + {last};
      assert last !in front;
    }
  }
}
