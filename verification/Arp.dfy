/** ARP learning (src/arpTable.cpp, RFC 826): what a gateway's or a neighbour's address maps to
    after any history of frames and table rebuilds. */
module Arp {
  import opened Words
  import opened Numbering

  type Mac = m: nat | m < 0x1_0000_0000_0000 witness 0

  const OP_REQUEST := 1
  const OP_REPLY := 2

  datatype NextHop = NextHop(mac: Mac, iface: nat)

  /** A next hop is usable when it has a MAC address and an interface. */
  predicate Usable(nh: NextHop) {
    nh.mac != 0 && nh.iface != 0xffff
  }

  /** The fields of an ARP frame, and the interface it arrived on. */
  datatype ArpFrame = ArpFrame(op: nat, senderIp: Word, senderMac: Mac, targetIp: Word, iface: nat)

  /** Addresses configured on each interface. */
  type LocalIps = map<nat, seq<Word>>

  /** The gateways of the current routing table and the interface numbers they use. */
  datatype Routing = Routing(mapping: Mapping, netmap: Netmap)

  datatype State = State(routing: Routing, current: seq<NextHop>,
                         direct: map<Word, NextHop>, mapping: map<Word, NextHop>)

  datatype Event = Rebuild(routing: Routing) | Frame(frame: ArpFrame)

  /** The netmap index of a gateway's interface, with all bits set while it has none. */
  function NumberOf(r: Routing, e: NextHopEntry): nat {
    if e.iface in r.netmap then r.netmap[e.iface] else 0xffff_ffff
  }

  /** A mapping as the numbering leaves it. An interface numbered 0xffff makes the rebuild abort. */
  ghost predicate RoutingOk(r: Routing) {
    MappingOk(r.mapping) && forall e :: e in r.mapping ==> NumberOf(r, e) != 0xffff
  }

  /** `insert` on an unordered map: the first value stays. */
  function InsertFirst(m: map<Word, NextHop>, ip: Word, nh: NextHop): map<Word, NextHop> {
    if ip in m then m else m[ip := nh]
  }

  /** The number as a next hop stores it, in 16 bits. */
  function IfaceOf(r: Routing, e: NextHopEntry): nat {
    NumberOf(r, e) % 0x10000
  }

  lemma SmallNumber(r: Routing, e: NextHopEntry)
    requires NumberOf(r, e) < 0x10000
    ensures IfaceOf(r, e) == NumberOf(r, e)
  {
  }

  /** Position of the gateway with this address on this interface, or the number of gateways. */
  function GatewayAt(r: Routing, ip: Word, iface: nat): (k: nat)
    ensures k <= |r.mapping|
    ensures k < |r.mapping| ==> r.mapping[k].ip == ip && NumberOf(r, r.mapping[k]) == iface
    ensures forall j :: 0 <= j < k ==> !(r.mapping[j].ip == ip && NumberOf(r, r.mapping[j]) == iface)
  {
    GatewayFrom(r, ip, iface, 0)
  }

  function GatewayFrom(r: Routing, ip: Word, iface: nat, from: nat): (k: nat)
    requires from <= |r.mapping|
    ensures from <= k <= |r.mapping|
    ensures k < |r.mapping| ==> r.mapping[k].ip == ip && NumberOf(r, r.mapping[k]) == iface
    ensures forall j :: from <= j < k ==> !(r.mapping[j].ip == ip && NumberOf(r, r.mapping[j]) == iface)
    decreases |r.mapping| - from
  {
    if from == |r.mapping| then from
    else if r.mapping[from].ip == ip && NumberOf(r, r.mapping[from]) == iface then from
    else GatewayFrom(r, ip, iface, from + 1)
  }

  /** A reply (operation 2), or a request (operation 1) for an address of the interface it came in on. */
  ghost predicate Qualifies(f: ArpFrame, ips: LocalIps) {
    f.op == 2 || (f.op == 1 && f.iface in ips && exists k :: 0 <= k < |ips[f.iface]| && ips[f.iface][k] == f.targetIp)
  }

  /** Some gateway has this address on this interface. */
  ghost predicate IsGateway(r: Routing, ip: Word, iface: nat) {
    exists k :: 0 <= k < |r.mapping| && r.mapping[k].ip == ip && NumberOf(r, r.mapping[k]) == iface
  }

  /** `n` is `m` with the address added, unless it was there. */
  ghost predicate AddedTo(m: map<Word, NextHop>, n: map<Word, NextHop>, ip: Word, nh: NextHop) {
    && n.Keys == m.Keys + {ip} && (forall x :: x in m ==> x in n && n[x] == m[x])
    && (ip !in m ==> n[ip] == nh)
  }

  /** What the sender of a qualifying frame does to the tables. A gateway goes into the mapping, unless
      it is there, and its MAC into its place of the current table; anybody else goes into the table
      of neighbours, unless it is there. */
  ghost predicate Learns(s: State, f: ArpFrame, u: State) {
    var nh := NextHop(f.senderMac, f.iface);
    && u.routing == s.routing && |u.current| == |s.current|
    && if IsGateway(s.routing, f.senderIp, f.iface) then
         && AddedTo(s.mapping, u.mapping, f.senderIp, nh) && u.direct == s.direct
         && forall x :: 0 <= x < |s.current| ==>
              u.current[x] == if InPlace(s.routing, f.senderIp, f.iface, x) then NextHop(f.senderMac, s.current[x].iface)
                              else s.current[x]
       else
         AddedTo(s.direct, u.direct, f.senderIp, nh) && u.mapping == s.mapping && u.current == s.current
  }

  /** The gateway with this address on this interface has place `x`. */
  ghost predicate InPlace(r: Routing, ip: Word, iface: nat, x: nat) {
    exists k :: 0 <= k < |r.mapping| && r.mapping[k].ip == ip && NumberOf(r, r.mapping[k]) == iface && r.mapping[k].index == x
  }

  /** Gateway `k` is the last with index `x`. */
  ghost predicate HasPlace(r: Routing, k: nat, x: nat) {
    k < |r.mapping| && r.mapping[k].index == x && forall j :: k < j < |r.mapping| ==> r.mapping[j].index != x
  }

  /** What a rebuild makes of the tables: a place per gateway, on the interface of the last gateway with
      that index and with the MAC mapped for it, or zero. */
  ghost predicate Rebuilds(s: State, r: Routing, u: State) {
    && u.routing == r && u.direct == s.direct && u.mapping == s.mapping && |u.current| == |r.mapping|
    && (forall k: nat, x: nat :: x < |u.current| && HasPlace(r, k, x) ==>
          && u.current[x].iface == NumberOf(r, r.mapping[k]) % 0x10000
          && u.current[x].mac == if r.mapping[k].ip in s.mapping then s.mapping[r.mapping[k].ip].mac else 0)
    && (forall x: nat :: x < |u.current| && (forall k: nat :: !HasPlace(r, k, x)) ==> u.current[x] == NextHop(0, 0xffff))
  }

  /** Whether the frame teaches anything: a reply, or a request for one of our addresses. */
  predicate Teaches(f: ArpFrame, ips: LocalIps) {
    f.op == OP_REPLY || (f.op == OP_REQUEST && f.iface in ips && f.targetIp in ips[f.iface])
  }

  /** The last of the first `n` gateways with this index, or -1. */
  function LastWriter(m: Mapping, x: nat, n: nat): (k: int)
    requires n <= |m|
    ensures -1 <= k < n
    ensures k >= 0 ==> m[k].index == x
    ensures forall j :: k < j < n ==> m[j].index != x
  {
    if n == 0 then -1 else if m[n - 1].index == x then n - 1 else LastWriter(m, x, n - 1)
  }

  /** Place `x` of the current table after the first `n` gateways have been entered. */
  function Slot(known: map<Word, NextHop>, r: Routing, x: nat, n: nat): NextHop
    requires n <= |r.mapping|
  {
    var k := LastWriter(r.mapping, x, n);
    if k < 0 then NextHop(0, 0xffff) else Entry(known, r, k)
  }

  /** `createCurrentTable`: gateways are entered at their indices, a later one over an earlier. */
  function Rebuilt(s: State, r: Routing): State {
    s.(routing := r, current := seq(|r.mapping|, x requires 0 <= x => Slot(s.mapping, r, x, |r.mapping|)))
  }

  function Entry(m: map<Word, NextHop>, r: Routing, k: nat): NextHop
    requires k < |r.mapping|
  {
    NextHop(if r.mapping[k].ip in m then m[r.mapping[k].ip].mac else 0, IfaceOf(r, r.mapping[k]))
  }

  /** What a teaching frame does to the tables. */
  function Learned(s: State, f: ArpFrame): State {
    var k := GatewayAt(s.routing, f.senderIp, f.iface);
    var nh := NextHop(f.senderMac, f.iface);
    if k < |s.routing.mapping| && s.routing.mapping[k].index < |s.current| then
      var x := s.routing.mapping[k].index;
      s.(mapping := InsertFirst(s.mapping, f.senderIp, nh), current := s.current[x := s.current[x].(mac := f.senderMac)])
    else
      s.(direct := InsertFirst(s.direct, f.senderIp, nh))
  }

  function AfterFrame(s: State, f: ArpFrame, ips: LocalIps): State {
    if Teaches(f, ips) then Learned(s, f) else s
  }

  function After(s: State, e: Event, ips: LocalIps): State {
    match e
    case Rebuild(r) => Rebuilt(s, r)
    case Frame(f) => AfterFrame(s, f, ips)
  }

  function Empty(): State {
    State(Routing([], map[]), [], map[], map[])
  }

  /** The state after a history of events. */
  function Run(h: seq<Event>, ips: LocalIps): State {
    if h == [] then Empty() else After(Run(h[..|h| - 1], ips), h[|h| - 1], ips)
  }

  ghost predicate HistoryOk(h: seq<Event>) {
    forall i :: 0 <= i < |h| && h[i].Rebuild? ==> RoutingOk(h[i].routing)
  }

  /** Event `i` teaches the address of a gateway of the routing table in force. */
  ghost predicate GatewayHit(h: seq<Event>, ips: LocalIps, i: nat, ip: Word) {
    && i < |h| && h[i].Frame? && Qualifies(h[i].frame, ips) && h[i].frame.senderIp == ip
    && var r := Run(h[..i], ips).routing; GatewayAt(r, ip, h[i].frame.iface) < |r.mapping|
  }

  /** Event `i` teaches an address that is not a gateway on that interface. */
  ghost predicate DirectHit(h: seq<Event>, ips: LocalIps, i: nat, ip: Word) {
    && i < |h| && h[i].Frame? && Qualifies(h[i].frame, ips) && h[i].frame.senderIp == ip
    && var r := Run(h[..i], ips).routing; GatewayAt(r, ip, h[i].frame.iface) == |r.mapping|
  }

  function HopIn(e: Event): NextHop
    requires e.Frame?
  {
    NextHop(e.frame.senderMac, e.frame.iface)
  }

  /** Event `i` teaches a gateway that has place `x` in the current table. */
  ghost predicate SlotHit(h: seq<Event>, ips: LocalIps, i: nat, x: nat) {
    && i < |h| && h[i].Frame? && GatewayHit(h, ips, i, h[i].frame.senderIp)
    && var r := Run(h[..i], ips).routing; r.mapping[GatewayAt(r, h[i].frame.senderIp, h[i].frame.iface)].index == x
  }

  /** Each place is on the interface of the last gateway with its index. */
  ghost predicate PlacesOk(r: Routing, current: seq<NextHop>) {
    && (forall k: nat, x: nat :: x < |current| && HasPlace(r, k, x) ==>
          current[x].iface == NumberOf(r, r.mapping[k]) % 0x10000)
    && (forall x: nat :: x < |current| && (forall k: nat :: !HasPlace(r, k, x)) ==> current[x].iface == 0xffff)
  }

  /** The current table has a place for each gateway of a numbered mapping. */
  ghost predicate CurrentOk(s: State) {
    RoutingOk(s.routing) && |s.current| == |s.routing.mapping| && PlacesOk(s.routing, s.current)
  }

  /** The last writer of a place is the gateway that has it. */
  lemma WriterHasPlace(r: Routing, x: nat)
    ensures var k := LastWriter(r.mapping, x, |r.mapping|);
            if k < 0 then forall j: nat :: !HasPlace(r, j, x) else forall j: nat :: HasPlace(r, j, x) <==> j == k
  {
  }

  lemma RebuiltExact(s: State, r: Routing)
    ensures Rebuilds(s, r, Rebuilt(s, r))
  {
    var u := Rebuilt(s, r);
    forall k: nat, x: nat | x < |u.current| && HasPlace(r, k, x) ensures u.current[x] == Entry(s.mapping, r, k) {
      WriterHasPlace(r, x);
    }
    forall x: nat | x < |u.current| && (forall k: nat :: !HasPlace(r, k, x)) ensures u.current[x] == NextHop(0, 0xffff) {
      NoWriter(r, x);
    }
  }

  lemma NoWriter(r: Routing, x: nat)
    requires forall k: nat :: !HasPlace(r, k, x)
    ensures LastWriter(r.mapping, x, |r.mapping|) == -1
  {
    var k := LastWriter(r.mapping, x, |r.mapping|);
    assert k >= 0 ==> HasPlace(r, k, x);
  }

  /** Nothing else is a rebuild. */
  lemma RebuildsOnce(s: State, r: Routing, u: State, v: State)
    requires Rebuilds(s, r, u) && Rebuilds(s, r, v)
    ensures u == v
  {
    forall x: nat | x < |r.mapping| ensures u.current[x] == v.current[x] {
      WriterHasPlace(r, x);
    }
    assert u.current == v.current;
  }

  lemma LearnedExact(s: State, f: ArpFrame)
    requires RoutingOk(s.routing) && |s.current| == |s.routing.mapping|
    ensures Learns(s, f, Learned(s, f))
  {
    var r, k := s.routing, GatewayAt(s.routing, f.senderIp, f.iface);
    if k < |r.mapping| {
      assert r.mapping[k] in r.mapping;
      forall j | 0 <= j < |r.mapping| && r.mapping[j].ip == f.senderIp ensures j == k {
      }
      forall x: nat ensures InPlace(r, f.senderIp, f.iface, x) <==> x == r.mapping[k].index {
        assert x == r.mapping[k].index ==> InPlace(r, f.senderIp, f.iface, x);
      }
    }
  }

  /** A frame that qualifies is learned from, any other leaves the tables alone. */
  lemma FrameExact(s: State, f: ArpFrame, ips: LocalIps)
    requires RoutingOk(s.routing) && |s.current| == |s.routing.mapping|
    ensures if Qualifies(f, ips) then Learns(s, f, AfterFrame(s, f, ips)) else AfterFrame(s, f, ips) == s
  {
    LearnedExact(s, f);
  }

  /** So it has after every history: the routing table in force came with the latest rebuild. */
  lemma {:induction false} CurrentMatchesRouting(h: seq<Event>, ips: LocalIps)
    requires HistoryOk(h)
    ensures CurrentOk(Run(h, ips))
  {
    if h != [] {
      CurrentMatchesRouting(h[..|h| - 1], ips);
      EventKeeps(Run(h[..|h| - 1], ips), h[|h| - 1], ips);
    }
  }

  lemma EventKeeps(s: State, e: Event, ips: LocalIps)
    requires CurrentOk(s) && (e.Rebuild? ==> RoutingOk(e.routing))
    ensures CurrentOk(After(s, e, ips))
  {
    if e.Rebuild? {
      RebuiltExact(s, e.routing);
    }
  }

  /** A hit in a shorter history is a hit in the longer one. */
  lemma HitPrefix(h: seq<Event>, ips: LocalIps, n: nat, i: nat, ip: Word)
    requires i < n <= |h|
    ensures GatewayHit(h[..n], ips, i, ip) <==> GatewayHit(h, ips, i, ip)
    ensures DirectHit(h[..n], ips, i, ip) <==> DirectHit(h, ips, i, ip)
  {
    assert h[..n][..i] == h[..i];
  }

  /** A gateway goes into the mapping, anybody else into the table of neighbours. */
  lemma LearnedWhere(s: State, f: ArpFrame)
    requires RoutingOk(s.routing) && |s.current| == |s.routing.mapping|
    ensures var nh, u := NextHop(f.senderMac, f.iface), Learned(s, f);
            if GatewayAt(s.routing, f.senderIp, f.iface) < |s.routing.mapping| then
              u.mapping == InsertFirst(s.mapping, f.senderIp, nh) && u.direct == s.direct
            else u.mapping == s.mapping && u.direct == InsertFirst(s.direct, f.senderIp, nh)
  {
    var k := GatewayAt(s.routing, f.senderIp, f.iface);
    if k < |s.routing.mapping| {
      assert s.routing.mapping[k] in s.routing.mapping;
    }
  }

  /** What the last event of a history does to the two maps. */
  lemma LastLearns(h: seq<Event>, ips: LocalIps)
    requires HistoryOk(h) && h != []
    ensures var n := |h| - 1;
            var s, u := Run(h[..n], ips), Run(h, ips);
            && (h[n].Frame? && GatewayHit(h, ips, n, h[n].frame.senderIp) ==>
                  u.mapping == InsertFirst(s.mapping, h[n].frame.senderIp, HopIn(h[n])) && u.direct == s.direct)
            && (h[n].Frame? && DirectHit(h, ips, n, h[n].frame.senderIp) ==>
                  u.mapping == s.mapping && u.direct == InsertFirst(s.direct, h[n].frame.senderIp, HopIn(h[n])))
            && (h[n].Rebuild? || !Qualifies(h[n].frame, ips) ==> u.mapping == s.mapping && u.direct == s.direct)
  {
    var n := |h| - 1;
    CurrentMatchesRouting(h[..n], ips);
    if h[n].Frame? {
      LearnedWhere(Run(h[..n], ips), h[n].frame);
    }
  }

  /** Without a teaching of a gateway address the mapping does not know it. */
  lemma {:induction false} MappingNone(h: seq<Event>, ips: LocalIps, ip: Word)
    requires HistoryOk(h) && forall i: nat :: i < |h| ==> !GatewayHit(h, ips, i, ip)
    ensures ip !in Run(h, ips).mapping
  {
    if h != [] {
      var n := |h| - 1;
      forall i: nat | i < n ensures !GatewayHit(h[..n], ips, i, ip) {
        HitPrefix(h, ips, n, i, ip);
      }
      MappingNone(h[..n], ips, ip);
      assert !GatewayHit(h, ips, n, ip);
      LastLearns(h, ips);
    }
  }

  /** The mapping holds the first teaching of a gateway address, whatever came later. */
  lemma {:induction false} MappingFirst(h: seq<Event>, ips: LocalIps, ip: Word, i: nat)
    requires HistoryOk(h) && GatewayHit(h, ips, i, ip) && forall j: nat :: j < i ==> !GatewayHit(h, ips, j, ip)
    ensures ip in Run(h, ips).mapping && Run(h, ips).mapping[ip] == HopIn(h[i])
  {
    var n := |h| - 1;
    LastLearns(h, ips);
    forall j: nat | j < n ensures GatewayHit(h[..n], ips, j, ip) <==> GatewayHit(h, ips, j, ip) {
      HitPrefix(h, ips, n, j, ip);
    }
    if i == n {
      MappingNone(h[..n], ips, ip);
    } else {
      MappingFirst(h[..n], ips, ip, i);
    }
  }

  lemma {:induction false} DirectNone(h: seq<Event>, ips: LocalIps, ip: Word)
    requires HistoryOk(h) && forall i: nat :: i < |h| ==> !DirectHit(h, ips, i, ip)
    ensures ip !in Run(h, ips).direct
  {
    if h != [] {
      var n := |h| - 1;
      forall i: nat | i < n ensures !DirectHit(h[..n], ips, i, ip) {
        HitPrefix(h, ips, n, i, ip);
      }
      DirectNone(h[..n], ips, ip);
      LastLearns(h, ips);
      assert !DirectHit(h, ips, n, ip);
    }
  }

  /** The directly connected table holds the first teaching of an address that was no gateway. */
  lemma {:induction false} DirectFirst(h: seq<Event>, ips: LocalIps, ip: Word, i: nat)
    requires HistoryOk(h) && DirectHit(h, ips, i, ip) && forall j: nat :: j < i ==> !DirectHit(h, ips, j, ip)
    ensures ip in Run(h, ips).direct && Run(h, ips).direct[ip] == HopIn(h[i])
  {
    var n := |h| - 1;
    LastLearns(h, ips);
    forall j: nat | j < n ensures DirectHit(h[..n], ips, j, ip) <==> DirectHit(h, ips, j, ip) {
      HitPrefix(h, ips, n, j, ip);
    }
    if i == n {
      DirectNone(h[..n], ips, ip);
    } else {
      DirectFirst(h[..n], ips, ip, i);
    }
  }

  /** `b` is the latest rebuild of the history. */
  ghost predicate LatestRebuild(h: seq<Event>, b: nat) {
    b < |h| && h[b].Rebuild? && forall i :: b < i < |h| ==> h[i].Frame?
  }

  lemma {:induction false} RoutingInForce(h: seq<Event>, ips: LocalIps, b: nat)
    requires LatestRebuild(h, b)
    ensures Run(h, ips).routing == h[b].routing
  {
    if b < |h| - 1 {
      RoutingInForce(h[..|h| - 1], ips, b);
    }
  }

  /** A place of the current table has the last MAC taught since the latest rebuild by a gateway that
      has this place. */
  lemma {:induction false} CurrentLast(h: seq<Event>, ips: LocalIps, b: nat, x: nat, i: nat)
    requires HistoryOk(h) && LatestRebuild(h, b) && x < |h[b].routing.mapping| && b < i
    requires SlotHit(h, ips, i, x) && forall j: nat :: i < j < |h| ==> !SlotHit(h, ips, j, x)
    ensures x < |Run(h, ips).current| && Run(h, ips).current[x].mac == h[i].frame.senderMac
  {
    var n := |h| - 1;
    RoutingInForce(h[..n], ips, b);
    CurrentMatchesRouting(h[..n], ips);
    if i == n {
      LearnedHits(Run(h[..n], ips), h[n].frame, x);
    } else {
      SlotPrefix(h, ips, n, i, x);
      forall j: nat | i < j < n ensures !SlotHit(h[..n], ips, j, x) {
        SlotPrefix(h, ips, n, j, x);
      }
      CurrentLast(h[..n], ips, b, x, i);
      LastMissesPlace(h, ips, b, x);
    }
  }

  lemma LearnedHits(s: State, f: ArpFrame, x: nat)
    requires x < |s.current|
    requires var k := GatewayAt(s.routing, f.senderIp, f.iface); k < |s.routing.mapping| && s.routing.mapping[k].index == x
    ensures |Learned(s, f).current| == |s.current| && Learned(s, f).current[x].mac == f.senderMac
  {
  }

  lemma SlotPrefix(h: seq<Event>, ips: LocalIps, n: nat, i: nat, x: nat)
    requires i < n <= |h|
    ensures SlotHit(h[..n], ips, i, x) <==> SlotHit(h, ips, i, x)
  {
    assert h[..n][..i] == h[..i];
  }

  /** A frame from nobody who has this place leaves it alone. */
  lemma LearnedMisses(s: State, f: ArpFrame, x: nat)
    requires x < |s.current|
    requires var k := GatewayAt(s.routing, f.senderIp, f.iface); k < |s.routing.mapping| ==> s.routing.mapping[k].index != x
    ensures |Learned(s, f).current| == |s.current| && Learned(s, f).current[x] == s.current[x]
  {
  }

  /** A final frame that is no hit for a place leaves it alone. */
  lemma LastMissesPlace(h: seq<Event>, ips: LocalIps, b: nat, x: nat)
    requires HistoryOk(h) && LatestRebuild(h, b) && b < |h| - 1 && x < |h[b].routing.mapping|
    requires !SlotHit(h, ips, |h| - 1, x)
    ensures var s := Run(h[..|h| - 1], ips); x < |s.current| && x < |Run(h, ips).current| && Run(h, ips).current[x] == s.current[x]
  {
    var n := |h| - 1;
    RoutingInForce(h[..n], ips, b);
    CurrentMatchesRouting(h[..n], ips);
    if Qualifies(h[n].frame, ips) {
      LearnedMisses(Run(h[..n], ips), h[n].frame, x);
    }
  }

  /** Without such a teaching it has the MAC mapped at the rebuild for the last gateway with this
      index, or zero. */
  lemma {:induction false} CurrentMapped(h: seq<Event>, ips: LocalIps, b: nat, x: nat)
    requires HistoryOk(h) && LatestRebuild(h, b) && x < |h[b].routing.mapping|
    requires forall j: nat :: b < j < |h| ==> !SlotHit(h, ips, j, x)
    ensures x < |Run(h, ips).current|
    ensures var m, r := Run(h[..b], ips).mapping, h[b].routing;
            && (forall k: nat :: HasPlace(r, k, x) ==>
                  Run(h, ips).current[x].mac == if r.mapping[k].ip in m then m[r.mapping[k].ip].mac else 0)
            && ((forall k: nat :: !HasPlace(r, k, x)) ==> Run(h, ips).current[x].mac == 0)
  {
    var n := |h| - 1;
    if b == n {
      RebuiltExact(Run(h[..n], ips), h[b].routing);
    } else {
      forall j: nat | b < j < n ensures !SlotHit(h[..n], ips, j, x) {
        SlotPrefix(h, ips, n, j, x);
      }
      assert h[..n][..b] == h[..b];
      CurrentMapped(h[..n], ips, b, x);
      LastMissesPlace(h, ips, b, x);
    }
  }

  // When a place speaks for one gateway.

  /** No other gateway has the index of gateway `k`. */
  ghost predicate OwnPlace(r: Routing, k: nat)
    requires k < |r.mapping|
  {
    forall j :: 0 <= j < |r.mapping| && r.mapping[j].index == r.mapping[k].index ==> j == k
  }

  /** The place of gateway `k` is on its interface after a rebuild, and nobody else changes it. */
  ghost predicate SpeaksFor(r: Routing, k: nat)
    requires k < |r.mapping| && r.mapping[k].index < |r.mapping|
  {
    var x := r.mapping[k].index;
    && HasPlace(r, k, x)
    && forall s: State, f: ArpFrame {:trigger Learned(s, f)} ::
         s.routing == r && |s.current| == |r.mapping| && f.senderIp != r.mapping[k].ip ==>
           |Learned(s, f).current| == |s.current| && Learned(s, f).current[x] == s.current[x]
  }

  /** The code reads the current table by index. A gateway's place holds what was learned of that
      gateway alone exactly when no other gateway has its index. */
  lemma PlaceExact(r: Routing, k: nat)
    requires RoutingOk(r) && k < |r.mapping|
    ensures r.mapping[k].index < |r.mapping|
    ensures SpeaksFor(r, k) <==> OwnPlace(r, k)
  {
    assert r.mapping[k] in r.mapping;
    if !OwnPlace(r, k) {
      var j :| 0 <= j < |r.mapping| && r.mapping[j].index == r.mapping[k].index && j != k;
      OverwrittenBy(r, k, j);
    }
  }

  /** A reply from another gateway with the same index overwrites the MAC. */
  lemma OverwrittenBy(r: Routing, k: nat, j: nat)
    requires RoutingOk(r) && k < |r.mapping| && j < |r.mapping| && j != k
    requires r.mapping[j].index == r.mapping[k].index < |r.mapping|
    ensures !SpeaksFor(r, k)
  {
    var x := r.mapping[k].index;
    var s := State(r, seq(|r.mapping|, _ => NextHop(0, 0)), map[], map[]);
    var f := ArpFrame(OP_REPLY, r.mapping[j].ip, 1, ZERO, NumberOf(r, r.mapping[j]));
    assert GatewayAt(r, f.senderIp, f.iface) == j;
    assert Learned(s, f).current[x].mac == 1;
  }
}
