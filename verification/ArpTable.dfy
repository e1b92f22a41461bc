/** The ARP table object (src/arpTable.cpp): updates its tables in place, one frame at a time. */
module ArpTables {
  import opened Words
  import opened Numbering
  import opened Arp

  class ArpTable {
    const ips: LocalIps
    var routing: Routing
    var current: seq<NextHop>
    var direct: map<Word, NextHop>
    var mapping: map<Word, NextHop>

    ghost function Abs(): State
      reads this
    {
      State(routing, current, direct, mapping)
    }

    ghost predicate Valid()
      reads this
    {
      RoutingOk(routing) && |current| == |routing.mapping|
    }

    constructor (ips: LocalIps)
      ensures this.ips == ips && Valid() && Abs() == Empty()
    {
      this.ips := ips;
      routing, current, direct, mapping := Routing([], map[]), [], map[], map[];
    }

    /** Rebuild the current table from the gateways and what is known of them; fails, and the program
        aborts, exactly when an interface is numbered 0xffff. */
    method CreateCurrentTable(r: Routing) returns (ok: bool)
      requires Valid() && MappingOk(r.mapping)
      modifies this
      ensures ok <==> RoutingOk(r)
      ensures ok ==> Valid() && Abs() == Rebuilt(old(Abs()), r) && Rebuilds(old(Abs()), r, Abs())
    {
      routing := r;
      var newTable := seq(|r.mapping|, _ => NextHop(0, 0xffff));
      for i := 0 to |r.mapping|
        invariant |newTable| == |r.mapping| && routing == r && direct == old(direct) && mapping == old(mapping)
        invariant forall x :: 0 <= x < |newTable| ==> newTable[x] == Slot(mapping, r, x, i)
        invariant forall k :: 0 <= k < i ==> NumberOf(r, r.mapping[k]) != 0xffff
      {
        var nh := r.mapping[i];
        assert nh in r.mapping;
        if NumberOf(r, nh) == 0xffff {
          return false;
        }
        newTable := newTable[nh.index := NextHop(0, NumberOf(r, nh) % 0x10000)];
        if nh.ip in mapping {
          newTable := newTable[nh.index := newTable[nh.index].(mac := mapping[nh.ip].mac)];
        }
      }
      current := newTable;
      RebuiltExact(old(Abs()), r);
      return true;
    }

    method FindGateway(ip: Word, iface: nat) returns (k: nat)
      requires Valid()
      ensures k == GatewayAt(routing, ip, iface)
    {
      for i := 0 to |routing.mapping|
        invariant forall j :: 0 <= j < i ==> !(routing.mapping[j].ip == ip && NumberOf(routing, routing.mapping[j]) == iface)
      {
        var nh := routing.mapping[i];
        if nh.ip == ip && NumberOf(routing, nh) == iface {
          return i;
        }
      }
      return |routing.mapping|;
    }

    /** Enter the sender of a frame; says whether it was a gateway. */
    method Learn(f: ArpFrame) returns (gateway: bool)
      requires Valid()
      modifies this
      ensures Valid() && Abs() == Learned(old(Abs()), f) && Learns(old(Abs()), f, Abs())
      ensures gateway <==> IsGateway(routing, f.senderIp, f.iface)
    {
      LearnedExact(old(Abs()), f);
      var nh := NextHop(f.senderMac, f.iface);
      var k := FindGateway(f.senderIp, f.iface);
      if k < |routing.mapping| {
        mapping := InsertFirst(mapping, f.senderIp, nh);
        assert routing.mapping[k] in routing.mapping;
        var index := routing.mapping[k].index;
        current := current[index := current[index].(mac := f.senderMac)];
        return true;
      }
      direct := InsertFirst(direct, f.senderIp, nh);
      return false;
    }

    method HandleReply(f: ArpFrame)
      requires Valid()
      modifies this
      ensures Valid() && Abs() == if f.op == OP_REPLY then Learned(old(Abs()), f) else old(Abs())
      ensures if f.op == 2 then Learns(old(Abs()), f, Abs()) else Abs() == old(Abs())
    {
      if f.op != OP_REPLY {
        return;
      }
      var gateway := Learn(f);
    }

    /** Learn from a request for one of our addresses; other requests are discarded. A request
        from a host that is not a gateway is turned into a reply. */
    method HandleRequest(f: ArpFrame) returns (discard: bool, reply: bool)
      requires Valid() && f.iface in ips
      modifies this
      ensures Valid() && Abs() == if f.op == OP_REQUEST then AfterFrame(old(Abs()), f, ips) else old(Abs())
      ensures if f.op == 1 && f.targetIp in ips[f.iface] then Learns(old(Abs()), f, Abs()) else Abs() == old(Abs())
      ensures discard <==> f.op == 1 && f.targetIp !in ips[f.iface]
      ensures reply <==> f.op == 1 && f.targetIp in ips[f.iface] && !IsGateway(routing, f.senderIp, f.iface)
    {
      if f.op != OP_REQUEST {
        return false, false;
      }
      if f.targetIp !in ips[f.iface] {
        return true, false;
      }
      var gateway := Learn(f);
      return false, !gateway;
    }

    /** Dispatch on the operation; the tables end up as the specification of one event says. */
    method HandleFrame(f: ArpFrame) returns (discard: bool)
      requires Valid() && f.iface in ips
      modifies this
      ensures Valid() && Abs() == After(old(Abs()), Frame(f), ips)
      ensures if f.op == 2 || (f.op == 1 && f.targetIp in ips[f.iface]) then Learns(old(Abs()), f, Abs()) else Abs() == old(Abs())
      ensures discard <==> f.op == 1 && f.targetIp !in ips[f.iface]
    {
      discard := false;
      if f.op == OP_REQUEST {
        var d, reply := HandleRequest(f);
        discard := d;
      } else if f.op == OP_REPLY {
        HandleReply(f);
      }
    }

    /** After any history the object holds what the closed forms say. */
    method Replay(h: seq<Event>)
      requires Abs() == Empty() && HistoryOk(h)
      requires forall i :: 0 <= i < |h| && h[i].Frame? ==> h[i].frame.iface in ips
      modifies this
      ensures Valid() && Abs() == Run(h, ips)
    {
      for i := 0 to |h|
        invariant Valid() && Abs() == Run(h[..i], ips)
      {
        assert h[..i + 1][..i] == h[..i];
        match h[i]
        case Rebuild(r) => var ok := CreateCurrentTable(r);
        case Frame(f) => var discard := HandleFrame(f);
      }
      assert h[..|h|] == h;
    }
  }
}
