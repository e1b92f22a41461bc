/** Runs of the router: packets that pass through all its stages, one after the other. */
module WitnessRuns {
  import opened Words
  import opened Rib
  import opened Routes
  import opened Reading
  import opened Numbering
  import opened EndToEnd
  import opened Checksum
  import opened Router
  import opened RouterLoops
  import opened RouterSafety
  import opened Witnesses
  import Arp

  /** One worker, nothing under way, and a buffer to spare. */
  ghost predicate Quiet(c: Config, s: State) {
    && c.workers == 1 && CanonicalTable(c.table) && |s.tx| == c.ifaces * 2 * TX_SLOTS && s.ring == 0 && !s.halted
    && |s.rx| == 1 && |s.free| == 1 && s.pending == [] && s.ingress == [] && s.batches == [[]] && s.egress == []
  }

  /** The frame a packet arrives in. */
  function FrameOf(s: State, iface: nat, packet: Packet): Frame
    requires |s.rx| == 1
  {
    Frame(s.rx[0], 34, TagOf(iface), packet, |s.received|)
  }

  /** The state with a frame in the worker's batch. */
  function InBatch(s: State, f: Frame): State
    requires |s.free| == 1
  {
    s.(free := [], rx := [s.free[0]], batches := [[f]], received := s.received + [ArrivalOf(f)])
  }

  function ArrivalOf(f: Frame): Arrived {
    Arrived(f.buf, f.tag.id, f.len, f.packet)
  }

  /** Received, flushed and taken by the worker. */
  lemma Arrives(c: Config, s: State, iface: nat, packet: Packet) returns (states: seq<State>, steps: seq<Step>)
    requires Quiet(c, s) && iface < c.ifaces <= 0x1000
    ensures Leads(c, s, states, steps, InBatch(s, FrameOf(s, iface, packet)))
  {
    var f := FrameOf(s, iface, packet);
    var s1 := Received(s, 0, iface, 34, packet);
    var s2 := Flushed(s1, true);
    var s3 := Taken(s2, 0, 1);
    SmallTag(iface);
    assert s1 == s.(free := [], rx := [s.free[0]], pending := [f], received := s.received + [ArrivalOf(f)]);
    assert s2 == s1.(pending := [], ingress := [f]);
    assert s2.ingress[..1] == [f] && s2.ingress[1..] == [];
    assert s2.batches[0 := [f]] == [[f]];
    states, steps := [s, s1, s2, s3], [Receive(0, iface, 34, packet), Flush(true), TakeBatch(0, 1)];
    assert s1 == Next(c, s, steps[0]) && s2 == Next(c, s1, steps[1]) && s3 == Next(c, s2, steps[2]);
  }

  /** What the worker, then the manager, make of a frame. */
  function Handled(c: Config, s: State, f: Frame, index: nat, time: real): (Frame, State) {
    var o := Processed(s, f, false, index);
    Resolved(c, s.(written := s.written + o.written), o.frame, time, time)
  }

  /** The frame can be handed on and sent. */
  ghost predicate Sendable(c: Config, s: State, f: Frame, index: nat, time: real)
    requires CanonicalTable(c.table)
  {
    var o := Processed(s, f, false, index);
    var (g, r) := Handled(c, s, f, index, time);
    && (f.packet.IPv4? ==> IsRead(c.table, DestIp(f.packet.header), index))
    && o.offered && !o.halt && !r.halted && !o.frame.tag.host && !g.tag.discard && g.tag.id < c.ifaces
  }

  /** The state with the frame in the first slot of its transmit ring. */
  function Sent(c: Config, s: State, r: State, f: Frame, g: Frame, time: real): State
    requires |s.tx| == c.ifaces * 2 * TX_SLOTS && g.tag.id < c.ifaces && |s.free| == 1
  {
    var slot := g.tag.id * 2 * TX_SLOTS;
    r.(free := [s.tx[slot]], rx := [s.free[0]], tx := s.tx[slot := g.buf], sent := s.sent + [Padded(g)], clock := time,
       received := s.received + [ArrivalOf(f)], kept := s.kept + 1)
  }

  /** Where the frame goes when it is dispatched. */
  lemma FirstSlot(c: Config, id: nat)
    requires c.workers == 1
    ensures InRing(c, id * 2 * TX_SLOTS, id, NextRing(c, 0, false))
  {
  }

  /** Resolving looks at tables and clock only. */
  lemma ResolvesAlike(c: Config, s: State, w: State, f: Frame, time: real)
    requires w == s.(free := w.free, rx := w.rx, batches := w.batches, egress := w.egress, received := w.received)
    ensures var (g, r) := Resolved(c, s, f, time, time);
            Resolved(c, w, f, time, time) ==
            (g, r.(free := w.free, rx := w.rx, batches := w.batches, egress := w.egress, received := w.received))
  {
  }

  /** Worked on and dispatched. */
  lemma Leaves(c: Config, s: State, f: Frame, index: nat, time: real) returns (states: seq<State>, steps: seq<Step>)
    requires Quiet(c, s) && Sendable(c, s, f, index, time) && s.clock <= time
    ensures var (g, r) := Handled(c, s, f, index, time);
            Leads(c, InBatch(s, f), states, steps, Sent(c, s, r, f, g, time))
  {
    var b := InBatch(s, f);
    var o := Processed(s, f, false, index);
    var w := Worked(b, 0, true, false, index);
    WorkedInto(s, f, index);
    var (g, r) := Handled(c, s, f, index, time);
    ResolvesAlike(c, s.(written := s.written + o.written), w, o.frame, time);
    FirstSlot(c, g.tag.id);
    HandledElsewhere(c, s, f, index, time);
    DispatchedInto(c, s, w, r, f, o.frame, g, time);
    states := [b, w, Sent(c, s, r, f, g, time)];
    steps := [Work(0, true, false, index), Dispatch(0, true, g.tag.id * 2 * TX_SLOTS, time, time)];
    assert Enabled(c, b, steps[0]) && w == Next(c, b, steps[0]);
    assert Enabled(c, w, steps[1]) && states[2] == Next(c, w, steps[1]);
  }

  lemma WorkedInto(s: State, f: Frame, index: nat)
    requires |s.free| == 1 && s.egress == [] && !s.halted
    requires Processed(s, f, false, index).offered && !Processed(s, f, false, index).halt
    ensures var o := Processed(s, f, false, index);
            Worked(InBatch(s, f), 0, true, false, index) ==
            s.(written := s.written + o.written, free := [], rx := [s.free[0]], batches := [[]], egress := [o.frame],
               received := s.received + [ArrivalOf(f)])
  {
    var b := InBatch(s, f);
    assert Processed(b, f, false, index) == Processed(s, f, false, index);
    assert b.batches[0][1..] == [];
    assert b.batches[0 := []] == [[]];
  }

  lemma DispatchedInto(c: Config, s: State, w: State, r: State, f: Frame, e: Frame, g: Frame, time: real)
    requires Quiet(c, s) && g.tag.id < c.ifaces && !g.tag.discard && !e.tag.host && !r.halted
    requires w.free == [] && w.rx == [s.free[0]] && w.tx == s.tx && w.batches == [[]] && w.egress == [e]
    requires w.sent == s.sent && w.ring == 0 && w.received == s.received + [ArrivalOf(f)] && w.kept == s.kept
    requires r.batches == [[]] && r.egress == [] && r.tx == s.tx && r.ring == 0
    requires Resolved(c, w, e, time, time) ==
             (g, r.(free := w.free, rx := w.rx, batches := w.batches, egress := w.egress, received := w.received))
    ensures Dispatched(c, w, 0, true, g.tag.id * 2 * TX_SLOTS, time, time) == Sent(c, s, r, f, g, time)
  {
    assert Remove(w.egress, 0) == [];
  }

  /** Five steps take a packet from a receive slot to a transmit slot. */
  lemma Passes(c: Config, from: State, states: seq<State>, steps: seq<Step>, s: State,
               iface: nat, packet: Packet, index: nat, time: real)
    returns (longer: seq<State>, more: seq<Step>, s': State)
    requires Leads(c, from, states, steps, s) && Quiet(c, s) && iface < c.ifaces <= 0x1000 && s.clock <= time
    requires Sendable(c, s, FrameOf(s, iface, packet), index, time)
    ensures Leads(c, from, longer, more, s') && Quiet(c, s') && s'.clock == time
    ensures var (g, r) := Handled(c, s, FrameOf(s, iface, packet), index, time);
            && s'.sent == s.sent + [Padded(g)] && s'.written == r.written && s'.requests == r.requests
            && s'.arp == r.arp && s'.heard == r.heard && s'.missing == r.missing
  {
    var f := FrameOf(s, iface, packet);
    var x, xs := Arrives(c, s, iface, packet);
    var y, ys := Leaves(c, s, f, index, time);
    var (g, r) := Handled(c, s, f, index, time);
    s' := Sent(c, s, r, f, g, time);
    Append(c, from, states, steps, s, x, xs, InBatch(s, f));
    Append(c, from, states + x[1..], steps + xs, InBatch(s, f), y, ys, s');
    longer, more := states + x[1..] + y[1..], steps + xs + ys;
    HandledElsewhere(c, s, f, index, time);
  }

  /** Handling a frame does not touch buffers and queues. */
  lemma HandledElsewhere(c: Config, s: State, f: Frame, index: nat, time: real)
    ensures var r := Handled(c, s, f, index, time).1;
            && r.tx == s.tx && r.ring == s.ring && r.pending == s.pending
            && r.ingress == s.ingress && r.batches == s.batches && r.egress == s.egress
  {
  }

  // A gateway that is asked for in vain, then heard of its own accord.

  function Packet0(): Packet { IPv4(0, ExceptionHeader()) }

  lemma ToZero()
    ensures DestIp(ExceptionHeader()) == ZERO && DestIp(Forwarded(ExceptionHeader())) == ZERO
    ensures Verified(ExceptionHeader(), 34)
  {
    ExceptionOccurs();
    LastBytes();
    ZeroDest(ExceptionHeader());
    ForwardedDest(ExceptionHeader());
  }

  lemma LastBytes()
    ensures var h := ExceptionHeader(); h[16] == 0 && h[17] == 0 && h[18] == 0 && h[19] == 0
  {
  }

  lemma ZeroDest(h: Header)
    requires h[16] == 0 && h[17] == 0 && h[18] == 0 && h[19] == 0
    ensures DestIp(h) == ZERO
  {
    assert Pow2(0) == 1;
    FromValueAllOnes(0, 8);
    assert Zeros(8) + Zeros(8) + Zeros(8) + Zeros(8) == ZERO;
  }

  function GatewayConfig(): Config {
    var t := Alone(To([], GatewayA(), 1, 0));
    Config(1, 1, t, t, OnlyA(), map[1 := 0], map[0 := [GatewayB()]])
  }

  lemma AloneOk(r: Route)
    requires Canonical(r, 0)
    ensures WellFormed(Alone(r)) && NoneCovered(RibOf(Alone(r))) && HopsOf(Alone(r)) == {HopOf(r)} && AllRoutes(Alone(r)) == {r}
  {
    var t := Alone(r);
    LevelsOk([r], [], []);
    assert r in t[0];
    assert forall k, q :: 0 <= k < 33 && q in t[k] ==> q == r;
    assert RibOf(t) == {EntryOf(r)};
    AloneAnswers(r, ZERO);
  }

  /** A single default route answers every address. */
  lemma AloneAnswers(r: Route, a: Word)
    requires Canonical(r, 0) && CanonicalTable(Alone(r))
    ensures IsRead(Alone(r), a, r.index) && Best(RibOf(Alone(r)), a, EntryOf(r)) && Resolves(RibOf(Alone(r)), a, HopOf(r))
  {
    var t := Alone(r);
    assert r in t[0];
    assert forall k, q :: 0 <= k < 33 && q in t[k] ==> q == r;
    assert BestRoute(t, a, r);
    BestRouteIsBest(t, a, r);
    assert a[..0] == [] && r.base[..0] == [];
    LastOne(r, []);
    assert Hit(t, a, 0) && Left(t, a, 0);
    ReadAt(t, a, 0);
  }

  /** A table of one route, via A on interface 1, is numbered by the mapping that has A alone. */
  lemma AloneNumbered(r: Route, netmap: Netmap)
    requires Canonical(r, 0) && HopOf(r) == Hop(GatewayA(), 1) && r.index == 0
    ensures Numbered(Alone(r), Alone(r), OnlyA(), netmap) && Fits(Alone(r), netmap)
  {
    GatewaysDiffer();
    AloneOk(r);
    OnlyAOk();
    OnlyGatewayA(Alone(r), HopOf(r));
    AloneIndexed(Alone(r), r, netmap);
    GatewaysFit(Alone(r), HopOf(r), HopOf(r), netmap);
  }

  lemma AloneIndexed(t: Table, r: Route, netmap: Netmap)
    requires AllRoutes(t) == {r} && r.nextHop == GatewayA() != ZERO && r.index == 0
    ensures AllIndexed(t, OnlyA(), netmap)
  {
    assert GatewayIndexed(r, OnlyA()) && DirectIndexed(r, netmap);
  }

  lemma AloneConfigOk(c: Config, r: Route)
    requires c.original == c.table == Alone(r) && c.mapping == OnlyA()
    requires Canonical(r, 0) && HopOf(r) == Hop(GatewayA(), 1) && r.index == 0
    requires 0 < c.workers && c.ifaces <= 0x1000 && 1 in c.netmap && c.netmap[1] < c.ifaces
    requires forall i: nat :: i < c.ifaces ==> i in c.ips
    ensures ConfigOk(c)
  {
    GatewaysDiffer();
    AloneNumbered(r, c.netmap);
    assert HopsOf(c.original) == {Hop(GatewayA(), 1)} by {
      AloneOk(r);
    }
  }

  lemma GatewayConfigOk()
    ensures ConfigOk(GatewayConfig())
  {
    AloneConfigOk(GatewayConfig(), To([], GatewayA(), 1, 0));
  }

  /** Rings with a slot to receive on, one free buffer, and transmit slots. */
  function StartOf(c: Config): State {
    State([0], [1], seq(c.ifaces * 2 * TX_SLOTS, i => i + 2), [], [], [[]], [], [], 0, false,
          Arp.Rebuilt(Arp.Empty(), Arp.Routing(c.mapping, c.netmap)), [], [], [], map[], [], 0.0, [], 0)
  }

  lemma Starts(c: Config)
    requires ConfigOk(c) && c.workers == 1
    ensures Init(c, StartOf(c)) && Quiet(c, StartOf(c)) && Leads(c, StartOf(c), [StartOf(c)], [], StartOf(c))
  {
    assert StartOf(c).batches == seq(c.workers, _ => []);
  }

  lemma RunOf(c: Config, states: seq<State>, steps: seq<Step>, s: State)
    requires ConfigOk(c) && Init(c, StartOf(c)) && Leads(c, StartOf(c), states, steps, s)
    ensures IsRun(c, states, steps) && states[|states| - 1] == s
  {
  }

  /** A packet through a gateway whose MAC is unknown becomes a request for its destination. */
  lemma AsksForDestination(c: Config, s: State, time: real)
    requires Quiet(c, s) && 0 < c.ifaces && IsRead(c.table, ZERO, 0)
    requires s.arp.current == [Arp.NextHop(0, 0)] && s.missing == map[] && HasAddress(c, 0)
    ensures var f := FrameOf(s, 0, Packet0());
            var (g, r) := Handled(c, s, f, 0, time);
            && Sendable(c, s, f, 0, time)
            && g.packet == RequestFor(ZERO, 0) && r == s.(missing := map[ZERO := time], requests := s.requests + [Request(ZERO, 0, time)])
  {
    ToZero();
    SmallTag(0);
    var f := FrameOf(s, 0, Packet0());
    assert NextHopFor(s, ZERO, 0) == Arp.NextHop(0, 0);
    assert s.written + [] == s.written;
  }

  /** A reply is learned from and handed on. */
  lemma HearsReply(c: Config, s: State, body: Arp.ArpFrame, time: real)
    requires Quiet(c, s) && body.op == Arp.OP_REPLY && body.iface < c.ifaces <= 0x1000
    ensures var f := FrameOf(s, body.iface, ArpPacket(0, body));
            var (g, r) := Handled(c, s, f, NH_INVALID, time);
            && Sendable(c, s, f, NH_INVALID, time) && g.packet == ArpPacket(0, body)
            && r == s.(arp := Arp.Learned(s.arp, body), heard := s.heard + [body])
  {
    SmallTag(body.iface);
    assert body.(iface := body.iface) == body;
    assert s.written + [] == s.written;
  }

  /** A packet whose next hop is known gets its MAC. */
  lemma WritesMac(c: Config, s: State, index: nat, nh: Arp.NextHop, time: real)
    requires Quiet(c, s) && nh.iface < c.ifaces <= 0x1000 && index != NH_INVALID && IsRead(c.table, ZERO, index)
    requires NextHopFor(s, ZERO, index) == nh && Arp.Usable(nh)
    ensures var f := FrameOf(s, 0, Packet0());
            var (g, r) := Handled(c, s, f, index, time);
            && Sendable(c, s, f, index, time)
            && g.packet == IPv4(nh.mac, Forwarded(ExceptionHeader())) && g.tag.id == nh.iface
            && r == s.(written := s.written + [Written(ZERO, nh.mac, nh.iface, |s.heard|)])
  {
    ToZero();
    SmallTag(nh.iface);
  }

  function ReplyFrom(ip: Word, iface: nat): Arp.ArpFrame {
    Arp.ArpFrame(Arp.OP_REPLY, ip, 7, ZERO, iface)
  }

  lemma LearnsGateway(arp: Arp.State)
    requires arp.routing == Arp.Routing(OnlyA(), map[1 := 0]) && arp.current == [Arp.NextHop(0, 0)]
    ensures Arp.Learned(arp, ReplyFrom(GatewayA(), 0)).current == [Arp.NextHop(7, 0)]
  {
    assert Arp.IfaceOf(arp.routing, arp.routing.mapping[0]) == 0;
    assert Arp.GatewayAt(arp.routing, GatewayA(), 0) == 0;
  }

  lemma FirstCurrent()
    ensures StartOf(GatewayConfig()).arp.current == [Arp.NextHop(0, 0)]
  {
  }

  /** A run: the first packet to 0.0.0.0 finds the MAC of its gateway missing, and the request asks
      for 0.0.0.0, which nobody behind the gateway can answer. When the gateway is heard of its own
      accord, the next packet leaves with its MAC. */
  lemma GatewayRun() returns (c: Config, run: seq<State>, steps: seq<Step>, h: Hop)
    ensures IsRun(c, run, steps) && Resolves(RibOf(c.original), ZERO, h) && h.gateway != ZERO
    ensures var s := run[|run| - 1];
            && |s.requests| == 1 && s.requests[0].ip == ZERO != NextHopIp(h, ZERO)
            && |s.heard| == 1 && s.heard[0].senderIp == h.gateway
            && s.written == [Written(ZERO, 7, 0, 1)]
            && |s.sent| == 3 && s.sent[0].packet == RequestFor(ZERO, 0) && s.sent[2].packet.IPv4? && s.sent[2].packet.dMac == 7
  {
    c, h := GatewayConfig(), Hop(GatewayA(), 1);
    GatewaysDiffer();
    GatewayReady(c, h);
    var s2, s3;
    run, steps, s2 := GatewayHeard(c, StartOf(c));
    WritesMac(c, s2, 0, Arp.NextHop(7, 0), 3.0);
    run, steps, s3 := Passes(c, StartOf(c), run, steps, s2, 0, Packet0(), 0, 3.0);
    RunOf(c, run, steps, s3);
  }

  lemma GatewayReady(c: Config, h: Hop)
    requires c == GatewayConfig() && h == Hop(GatewayA(), 1)
    ensures ConfigOk(c) && Init(c, StartOf(c)) && Quiet(c, StartOf(c))
    ensures Leads(c, StartOf(c), [StartOf(c)], [], StartOf(c))
    ensures IsRead(c.table, ZERO, 0) && Resolves(RibOf(c.original), ZERO, h)
  {
    GatewayConfigOk();
    AloneAnswers(To([], GatewayA(), 1, 0), ZERO);
    Starts(c);
  }

  /** The first packet. */
  lemma FirstAsked(c: Config, s: State) returns (states: seq<State>, steps: seq<Step>, s': State)
    requires c == GatewayConfig() && s == StartOf(c) && Quiet(c, s) && Leads(c, s, [s], [], s) && IsRead(c.table, ZERO, 0)
    ensures Leads(c, s, states, steps, s') && Quiet(c, s') && s'.clock == 1.0
    ensures s'.requests == [Request(ZERO, 0, 1.0)] && s'.heard == [] && s'.written == [] && s'.arp == s.arp
    ensures |s'.sent| == 1 && s'.sent[0].packet == RequestFor(ZERO, 0)
    ensures s.arp.current == [Arp.NextHop(0, 0)] && s.arp.routing == Arp.Routing(OnlyA(), map[1 := 0])
  {
    FirstCurrent();
    AsksForDestination(c, s, 1.0);
    states, steps, s' := Passes(c, s, [s], [], s, 0, Packet0(), 0, 1.0);
  }

  /** The first packet and the gateway's reply. */
  lemma GatewayHeard(c: Config, s: State) returns (states: seq<State>, steps: seq<Step>, s': State)
    requires c == GatewayConfig() && s == StartOf(c) && Quiet(c, s) && Leads(c, s, [s], [], s) && IsRead(c.table, ZERO, 0)
    ensures Leads(c, s, states, steps, s') && Quiet(c, s') && s'.clock == 2.0
    ensures s'.requests == [Request(ZERO, 0, 1.0)] && s'.heard == [ReplyFrom(GatewayA(), 0)] && s'.written == []
    ensures |s'.sent| == 2 && s'.sent[0].packet == RequestFor(ZERO, 0) && s'.arp.current == [Arp.NextHop(7, 0)]
  {
    var s1;
    states, steps, s1 := FirstAsked(c, s);
    var body := ReplyFrom(GatewayA(), 0);
    HearsReply(c, s1, body, 2.0);
    LearnsGateway(s1.arp);
    states, steps, s' := Passes(c, s, states, steps, s1, 0, ArpPacket(0, body), NH_INVALID, 2.0);
  }

  // A neighbour that is heard on another interface than its route names.

  function DirectConfig(): Config {
    var t := Alone(To([], ZERO, 1, NH_DIRECTLY_CONNECTED));
    Config(1, 2, t, t, [], map[1 := 0, 2 := 1], map[0 := [], 1 := []])
  }

  lemma DirectConfigOk()
    ensures ConfigOk(DirectConfig())
  {
    var c, r := DirectConfig(), To([], ZERO, 1, NH_DIRECTLY_CONNECTED);
    AloneOk(r);
    assert Gateways(c.table) == {};
    assert DirectIndexed(r, c.netmap);
    assert Numbered(c.original, c.table, c.mapping, c.netmap);
  }

  lemma DirectReady(c: Config, h: Hop)
    requires c == DirectConfig() && h == Hop(ZERO, 1)
    ensures ConfigOk(c) && Init(c, StartOf(c)) && Quiet(c, StartOf(c))
    ensures Leads(c, StartOf(c), [StartOf(c)], [], StartOf(c))
    ensures IsRead(c.table, ZERO, NH_DIRECTLY_CONNECTED) && Resolves(RibOf(c.original), ZERO, h)
  {
    DirectConfigOk();
    AloneAnswers(To([], ZERO, 1, NH_DIRECTLY_CONNECTED), ZERO);
    Starts(c);
  }

  lemma NeighbourHeard(c: Config, s: State) returns (states: seq<State>, steps: seq<Step>, s': State)
    requires c == DirectConfig() && s == StartOf(c) && Quiet(c, s) && Leads(c, s, [s], [], s)
    ensures Leads(c, s, states, steps, s') && Quiet(c, s') && s'.clock == 1.0
    ensures s'.arp.direct == map[ZERO := Arp.NextHop(7, 1)] && s'.written == [] && |s'.sent| == 1
  {
    var body := ReplyFrom(ZERO, 1);
    HearsReply(c, s, body, 1.0);
    states, steps, s' := Passes(c, s, [s], [], s, 1, ArpPacket(0, body), NH_INVALID, 1.0);
  }

  /** A run: every address is directly connected on interface 0, but 0.0.0.0 answers on interface 1,
      and packets to it leave there. */
  lemma NeighbourElsewhere() returns (c: Config, run: seq<State>, steps: seq<Step>, h: Hop)
    ensures IsRun(c, run, steps) && Resolves(RibOf(c.original), ZERO, h) && h.gateway == ZERO && h.iface in c.netmap
    ensures var s := run[|run| - 1];
            |s.written| == 1 && s.written[0].dst == ZERO && s.written[0].iface != c.netmap[h.iface]
            && |s.sent| == 2 && s.sent[1].packet.IPv4? && s.sent[1].tag.id == s.written[0].iface
  {
    c, h := DirectConfig(), Hop(ZERO, 1);
    DirectReady(c, h);
    var s0 := StartOf(c);
    var s1, s2;
    run, steps, s1 := NeighbourHeard(c, s0);
    WritesMac(c, s1, NH_DIRECTLY_CONNECTED, Arp.NextHop(7, 1), 2.0);
    run, steps, s2 := Passes(c, s0, run, steps, s1, 0, Packet0(), NH_DIRECTLY_CONNECTED, 2.0);
    RunOf(c, run, steps, s2);
  }
}
