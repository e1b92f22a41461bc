/** From the routing information to a running router (src/linuxTable.cpp, src/manager.cpp): what the
    theorems on runs take for granted is what start-up establishes. */
module Startup {
  import opened Words
  import opened Rib
  import opened Routes
  import opened Numbering
  import opened RoutingTables
  import opened EndToEnd
  import opened TrieShape
  import opened AggregatePass
  import opened AggregateReading
  import opened Router
  import opened RouterLoops
  import Arp
  import ArpTables
  import BasicTries

  /** Every interface a route uses is one of the netmap interfaces. */
  ghost predicate AllOnNetmap(t: Table, netmap: Netmap, ifaces: nat) {
    forall h :: h in HopsOf(t) ==> h.iface in netmap && netmap[h.iface] < ifaces
  }

  lemma MappingOnNetmap(original: Table, t: Table, m: Mapping, netmap: Netmap, ifaces: nat)
    requires NumberedAs(original, t, m, netmap) && AllOnNetmap(original, netmap, ifaces)
    ensures forall e :: e in m ==> e.iface in netmap && netmap[e.iface] < ifaces
  {
    forall e | e in m ensures Hop(e.ip, e.iface) in HopsOf(original) {
    }
  }

  /** The ARP table for the numbered gateways. */
  method FirstArpTable(m: Mapping, netmap: Netmap, ips: Arp.LocalIps) returns (s: Arp.State)
    requires Arp.RoutingOk(Arp.Routing(m, netmap))
    ensures s == Arp.Rebuilt(Arp.Empty(), Arp.Routing(m, netmap))
  {
    var arp := new ArpTables.ArpTable(ips);
    var ok := arp.CreateCurrentTable(Arp.Routing(m, netmap));
    s := Arp.State(arp.routing, arp.current, arp.direct, arp.mapping);
  }

  /** Update the table before interfaces have their netmap indices (`before`), number it again when
      they have (`now`), build the trie and the ARP table: the router is ready, and a run begins
      when aggregation kept the answers, as it does with no covered route. */
  method Boot(table: RoutingTable, before: Netmap, now: Netmap, workers: nat, ifaces: nat, ips: Arp.LocalIps,
              free: seq<Buf>, rx: seq<Buf>, tx: seq<Buf>, clock: real) returns (e: Engine, ghost order: Order)
    requires WellFormed(table.entries) && table.nextHopMapping == []
    requires DirectOnNetmap(table.entries, before) && |Gateways(table.entries)| <= 0x8000
    requires 0 < workers && ifaces <= 0x1000 && AllOnNetmap(table.entries, now, ifaces)
    requires |tx| == ifaces * (workers + 1) * TX_SLOTS && forall i: nat :: i < ifaces ==> i in ips
    modifies table
    ensures Started(old(table.entries), order, table.entries, table.nextHopMapping, now)
    ensures fresh(e) && fresh(e.lpm) && fresh(e.lpm.repr) && e.Ready()
    ensures e.c == Config(workers, ifaces, old(table.entries), table.entries, table.nextHopMapping, now, ips)
    ensures e.s.free == free && e.s.rx == rx && e.s.tx == tx && Init(e.c, e.s)
    ensures KeepsAbove(old(table.entries), order, 0) ==> IsRun(e.c, [e.s], [])
  {
    var original := table.entries;
    order := StartUp(table, before, now);
    var t, m := table.entries, table.nextHopMapping;
    MappingOnNetmap(original, t, m, now, ifaces);
    SmallNumbersFit(original, now, ifaces);
    UpdatedIndicesValid(original, t, m, now);
    var trie := new BasicTries.BasicTrie(t);
    var arp := FirstArpTable(m, now, ips);
    var c := Config(workers, ifaces, original, t, m, now, ips);
    e := new Engine(c, trie, FirstState(c, free, rx, tx, arp, clock));
    BootConfig(c, order);
  }

  /** Buffers in the rings and on the free list, nothing under way. */
  function FirstState(c: Config, free: seq<Buf>, rx: seq<Buf>, tx: seq<Buf>, arp: Arp.State, clock: real): (s: State)
    requires |tx| == c.ifaces * (c.workers + 1) * TX_SLOTS
    requires arp == Arp.Rebuilt(Arp.Empty(), Arp.Routing(c.mapping, c.netmap))
    ensures Init(c, s)
  {
    State(free, rx, tx, [], [], seq(c.workers, _ => []), [], [], 0, false, arp, [], [], [], map[], [], clock, [], 0)
  }

  lemma BootConfig(c: Config, order: Order)
    requires Started(c.original, order, c.table, c.mapping, c.netmap) && |Gateways(c.original)| <= 0x8000
    requires 0 < c.workers && c.ifaces <= 0x1000 && AllOnNetmap(c.original, c.netmap, c.ifaces)
    requires forall i: nat :: i < c.ifaces ==> i in c.ips
    ensures KeepsAbove(c.original, order, 0) ==> ConfigOk(c)
  {
    MappingOnNetmap(c.original, c.table, c.mapping, c.netmap, c.ifaces);
    SmallNumbersFit(c.original, c.netmap, c.ifaces);
  }

  lemma SmallNumbersFit(t: Table, netmap: Netmap, ifaces: nat)
    requires ifaces <= 0x1000 && AllOnNetmap(t, netmap, ifaces) && |Gateways(t)| <= 0x8000
    ensures Fits(t, netmap)
  {
  }
}
