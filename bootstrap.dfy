/**
 * The optional `BOOTSTRAP_PEERS` setting: a comma-separated list of
 * `host:port` entries, each dialled as `/dns4/host/tcp/port`.
 *
 * Reading the environment, parsing the text as a `Multiaddr` and dialling
 * are not modelled; the model computes the addresses that are dialled.
 */
module Bootstrap {
  import opened Wrappers
  import opened Text

  function DialAddress(host: string, port: string): string {
    "/dns4/" + host + "/tcp/" + port
  }

  /**
   * The address dialled for one non-empty entry: the first two `:`-separated
   * pieces as host and port; an entry without a `:` is skipped and pieces
   * after the second are ignored.
   */
  function EntryTarget(entry: string): (t: Option<string>)
    ensures t.Some? <==> ':' in entry
    ensures t.Some? ==> StartsWith(t.value, "/dns4/")
  {
    var parts := Split(entry, ':');
    SplitCount(entry, ':');
    if |parts| >= 2 then
      var address := DialAddress(parts[0], parts[1]);
      assert address[..6] == "/dns4/";
      Some(address)
    else None
  }

  /** The addresses dialled for a list of entries, in order; empty entries are dropped. */
  function Targets(entries: seq<string>): (dials: seq<string>)
    ensures |dials| <= |entries|
    ensures forall i :: 0 <= i < |dials| ==> StartsWith(dials[i], "/dns4/")
  {
    if entries == [] then []
    else
      var last := entries[|entries| - 1];
      var t := EntryTarget(last);
      Targets(entries[..|entries| - 1]) + (if last != [] && t.Some? then [t.value] else [])
  }

  /** The bootstrap loop: split on `,`, skip empty entries, dial each `host:port`. */
  method BootstrapDials(peers: string) returns (dials: seq<string>)
    ensures dials == Targets(Split(peers, ','))
    ensures forall i :: 0 <= i < |dials| ==> StartsWith(dials[i], "/dns4/")
  {
    var entries := Split(peers, ',');
    dials := [];
    for i := 0 to |entries|
      invariant dials == Targets(entries[..i])
    {
      assert entries[..i + 1][..i] == entries[..i];
      var p := entries[i];
      if p != [] {
        var parts := Split(p, ':');
        if |parts| >= 2 {
          dials := dials + [DialAddress(parts[0], parts[1])];
        }
      }
    }
    assert entries[..|entries|] == entries;
  }

  /** The entry text `host:port`. */
  function Entry(host: string, port: string): string {
    host + [':'] + port
  }

  /**
   * A configuration written as `h1:p1,h2:p2,...` (no `,` or `:` inside a
   * host or port) dials `/dns4/h1/tcp/p1`, `/dns4/h2/tcp/p2`, ... in order.
   */
  lemma {:induction false} BootstrapRoundTrip(hosts: seq<string>, ports: seq<string>)
    requires |hosts| == |ports| >= 1
    requires forall i :: 0 <= i < |hosts| ==> ':' !in hosts[i] && ',' !in hosts[i]
    requires forall i :: 0 <= i < |ports| ==> ':' !in ports[i] && ',' !in ports[i]
    ensures Targets(Split(Join(Entries(hosts, ports), ','), ',')) == Dials(hosts, ports)
  {
    var entries := Entries(hosts, ports);
    forall i | 0 <= i < |entries|
      ensures ',' !in entries[i]
    {
      assert entries[i] == hosts[i] + [':'] + ports[i];
    }
    SplitJoin(entries, ',');
    TargetsOfEntries(hosts, ports);
  }

  lemma {:induction false} TargetsOfEntries(hosts: seq<string>, ports: seq<string>)
    requires |hosts| == |ports|
    requires forall i :: 0 <= i < |hosts| ==> ':' !in hosts[i]
    requires forall i :: 0 <= i < |ports| ==> ':' !in ports[i]
    ensures Targets(Entries(hosts, ports)) == Dials(hosts, ports)
  {
    if hosts != [] {
      var n := |hosts| - 1;
      var entries := Entries(hosts, ports);
      TargetsOfEntries(hosts[..n], ports[..n]);
      EntriesPrefix(hosts, ports);
      EntryTargetOf(hosts[n], ports[n]);
      assert entries[n] != [];
      assert Dials(hosts, ports) == Dials(hosts[..n], ports[..n]) + [DialAddress(hosts[n], ports[n])] by {
        DialsPrefix(hosts, ports);
      }
    }
  }

  /** The entries `host:port`, one per host, in order. */
  function Entries(hosts: seq<string>, ports: seq<string>): (entries: seq<string>)
    requires |hosts| == |ports|
    ensures |entries| == |hosts|
    ensures forall i :: 0 <= i < |hosts| ==> entries[i] == Entry(hosts[i], ports[i])
  {
    seq(|hosts|, i requires 0 <= i < |hosts| => Entry(hosts[i], ports[i]))
  }

  /** The addresses `/dns4/host/tcp/port`, one per host, in order. */
  function Dials(hosts: seq<string>, ports: seq<string>): (dials: seq<string>)
    requires |hosts| == |ports|
    ensures |dials| == |hosts|
    ensures forall i :: 0 <= i < |hosts| ==> dials[i] == DialAddress(hosts[i], ports[i])
  {
    seq(|hosts|, i requires 0 <= i < |hosts| => DialAddress(hosts[i], ports[i]))
  }

  lemma EntriesPrefix(hosts: seq<string>, ports: seq<string>)
    requires |hosts| == |ports| >= 1
    ensures Entries(hosts, ports)[..|hosts| - 1] == Entries(hosts[..|hosts| - 1], ports[..|hosts| - 1])
  {
  }

  lemma DialsPrefix(hosts: seq<string>, ports: seq<string>)
    requires |hosts| == |ports| >= 1
    ensures Dials(hosts, ports) == Dials(hosts[..|hosts| - 1], ports[..|hosts| - 1])
                                   + [DialAddress(hosts[|hosts| - 1], ports[|hosts| - 1])]
  {
  }

  lemma EntryTargetOf(host: string, port: string)
    requires ':' !in host && ':' !in port
    ensures EntryTarget(Entry(host, port)) == Some(DialAddress(host, port))
  {
    assert [host, port][1..] == [port];
    assert Join([host, port], ':') == Entry(host, port);
    SplitJoin([host, port], ':');
  }
}
