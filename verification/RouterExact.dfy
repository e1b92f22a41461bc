/** What each step of a run does, told by the bytes of the packets, the log of what was heard and asked,
    and the original routing information (src/manager.cpp, src/worker.cpp). */
module RouterExact {
  import opened Words
  import opened Rib
  import opened Routes
  import opened Reading
  import opened Numbering
  import opened EndToEnd
  import opened Checksum
  import opened Router
  import opened RouterSafety
  import RouterOrigin
  import ArpPacing
  import Arp

  // The next hop.

  /** The next hop of a destination routed to `h`. Behind a gateway: the interface the mapping has for
      it, and the MAC last taught by it there, or zero. Directly connected: MAC and interface as it was
      first heard, or, never heard, the interface of the route and no MAC. */
  ghost predicate NextHopBy(c: Config, heard: seq<Arp.ArpFrame>, dst: Word, h: Hop, nh: Arp.NextHop) {
    if h.gateway != ZERO then
      exists e :: e in c.mapping && e.ip == h.gateway && e.iface in c.netmap && nh.iface == c.netmap[e.iface]
                  && LastMac(c, heard, h.gateway, nh.iface, nh.mac)
    else
      || (exists j: nat :: FirstAt(c, heard, dst, j) && nh == Arp.NextHop(heard[j].senderMac, heard[j].iface))
      || (h.iface in c.netmap && nh == Arp.NextHop(0, c.netmap[h.iface])
          && forall j :: 0 <= j < |heard| ==> !Introduces(c, heard[j], dst))
  }

  /** A destination has an index exactly when the original table routes it. */
  lemma IndexExists(c: Config, dst: Word, index: nat)
    requires ConfigOk(c) && IsRead(c.table, dst, index)
    ensures index == NH_INVALID <==> forall h :: !Resolves(RibOf(c.original), dst, h)
  {
    UpdateThenLookup(c.original, c.table, c.mapping, c.netmap, dst, index);
    GatewayIndexInRange(c.original, c.table, c.mapping, c.netmap, dst, index);
  }

  lemma GatewayHop(c: Config, s: State, dst: Word, index: nat, h: Hop)
    requires ConfigOk(c) && ArpOk(c, s.arp, s.heard) && index < |c.mapping| && index < NH_DIRECTLY_CONNECTED
    requires h.gateway == c.mapping[index].ip != ZERO
    ensures NextHopBy(c, s.heard, dst, h, NextHopFor(s, dst, index))
  {
    GatewayEntry(c, s, index);
    assert c.mapping[index] in c.mapping;
  }

  lemma NeighbourHop(c: Config, s: State, dst: Word, index: nat, h: Hop)
    requires ArpOk(c, s.arp, s.heard) && NH_DIRECTLY_CONNECTED <= index && h.gateway == ZERO
    requires h.iface in c.netmap && c.netmap[h.iface] == index - NH_DIRECTLY_CONNECTED
    ensures NextHopBy(c, s.heard, dst, h, NextHopFor(s, dst, index))
  {
    if dst in s.arp.direct {
      assert FirstHeard(c, s.heard, dst, s.arp.direct[dst]);
    }
  }

  lemma NextHopExact(c: Config, s: State, dst: Word, index: nat, h: Hop)
    requires ConfigOk(c) && ArpOk(c, s.arp, s.heard) && IsRead(c.table, dst, index) && Resolves(RibOf(c.original), dst, h)
    ensures NextHopBy(c, s.heard, dst, h, NextHopFor(s, dst, index))
  {
    IndexExists(c, dst, index);
    var g := LookupHop(c, dst, index);
    OneAnswer(c, dst, g, h);
    if index < NH_DIRECTLY_CONNECTED {
      GatewayHop(c, s, dst, index, h);
    } else {
      NeighbourHop(c, s, dst, index, h);
    }
  }

  // A worker's step.

  ghost predicate Offered(s: State, s': State, accepted: bool, g: Frame) {
    if accepted then s'.egress == s.egress + [g] && s'.lost == s.lost
    else s'.egress == s.egress && s'.lost == s.lost + [g.buf]
  }

  ghost predicate Withheld(s: State, s': State, f: Frame) {
    s'.egress == s.egress && s'.lost == s.lost + [f.buf] && s'.written == s.written
  }

  /** An acceptable packet that is not for the host and has a route: one hop further, with the MAC of its
      next hop or marked as missing it, on the interface of the next hop. */
  ghost predicate ForwardedAs(c: Config, s: State, s': State, accepted: bool, f: Frame, dMac: Arp.Mac, h: Header, hop: Hop,
                              nh: Arp.NextHop, g: Header)
    requires CanonicalTable(c.original)
  {
    && Resolves(RibOf(c.original), DestIp(h), hop) && NextHopBy(c, s.heard, DestIp(h), hop, nh) && Hopped(h, g)
    && if nh.mac != 0 then
         && s'.written == s.written + [Written(DestIp(h), nh.mac, nh.iface, |s.heard|)]
         && Offered(s, s', accepted, Frame(f.buf, f.len, Tag(nh.iface, false, false, false, false), IPv4(nh.mac, g), f.from))
       else
         && s'.written == s.written
         && Offered(s, s', accepted, Frame(f.buf, f.len, Tag(nh.iface, true, false, false, false), IPv4(dMac, g), f.from))
  }

  ghost predicate WorkResult(c: Config, s: State, s': State, w: nat, accepted: bool, host: bool)
    requires CanonicalTable(c.original) && w < |s.batches| && s.batches[w] != []
  {
    var f := s.batches[w][0];
    && s' == s.(batches := s.batches[w := s.batches[w][1..]], egress := s'.egress, lost := s'.lost,
                written := s'.written, halted := s'.halted)
    && match f.packet
       case ArpPacket(_, _) =>
         !s'.halted && s'.written == s.written && Offered(s, s', accepted, f.(tag := Tag(f.tag.id, false, true, false, false)))
       case Other =>
         !s'.halted && s'.written == s.written && Offered(s, s', accepted, f.(tag := Tag(0, false, false, false, true)))
       case IPv4(dMac, h) =>
         if !Acceptable(h, f.len) || host then !s'.halted && Withheld(s, s', f)
         else if forall hop :: !Resolves(RibOf(c.original), DestIp(h), hop) then s'.halted && Withheld(s, s', f)
         else !s'.halted && exists hop, nh, g :: ForwardedAs(c, s, s', accepted, f, dMac, h, hop, nh, g)
  }

  /** What the step does with such a packet, whatever its next hop. */
  lemma WorkedPacket(s: State, w: nat, accepted: bool, index: nat, f: Frame, dMac: Arp.Mac, h: Header, nh: Arp.NextHop)
    requires w < |s.batches| && s.batches[w] != [] && s.batches[w][0] == f && f.packet == IPv4(dMac, h) && Verified(h, f.len)
    requires index != NH_INVALID && nh == NextHopFor(s, DestIp(Forwarded(h)), index) && nh.iface < 0x1000
    requires DestIp(Forwarded(h)) == DestIp(h)
    ensures var s' := Worked(s, w, accepted, false, index);
            && !s'.halted
            && if nh.mac != 0 then
                 && s'.written == s.written + [Written(DestIp(h), nh.mac, nh.iface, |s.heard|)]
                 && Offered(s, s', accepted,
                            Frame(f.buf, f.len, Tag(nh.iface, false, false, false, false), IPv4(nh.mac, Forwarded(h)), f.from))
               else
                 && s'.written == s.written
                 && Offered(s, s', accepted,
                            Frame(f.buf, f.len, Tag(nh.iface, true, false, false, false), IPv4(dMac, Forwarded(h)), f.from))
  {
    SmallTag(nh.iface);
  }

  lemma RoutedWork(c: Config, s: State, w: nat, accepted: bool, index: nat, hop: Hop)
    requires Safe(c, s) && Enabled(c, s, Work(w, accepted, false, index)) && s.batches[w][0].packet.IPv4?
    requires Verified(s.batches[w][0].packet.header, s.batches[w][0].len)
    requires Resolves(RibOf(c.original), DestIp(s.batches[w][0].packet.header), hop)
    ensures var f, h := s.batches[w][0], s.batches[w][0].packet.header;
            var s' := Worked(s, w, accepted, false, index);
            !s'.halted && ForwardedAs(c, s, s', accepted, f, f.packet.dMac, h, hop, NextHopFor(s, DestIp(h), index), Forwarded(h))
  {
    var f, h := s.batches[w][0], s.batches[w][0].packet.header;
    IndexExists(c, DestIp(h), index);
    NextHopExact(c, s, DestIp(h), index, hop);
    var other := NextHopInRange(c, s, DestIp(h), index);
    ForwardedDest(h);
    HoppedExact(h, Forwarded(h));
    WorkedPacket(s, w, accepted, index, f, f.packet.dMac, h, NextHopFor(s, DestIp(h), index));
  }

  /** What the step does with any other frame. */
  lemma OtherWork(s: State, w: nat, accepted: bool, host: bool, index: nat, f: Frame)
    requires w < |s.batches| && s.batches[w] != [] && s.batches[w][0] == f
    requires f.tag == Tag(f.tag.id, false, false, false, false)
    ensures var s' := Worked(s, w, accepted, host, index);
            && s' == s.(batches := s.batches[w := s.batches[w][1..]], egress := s'.egress, lost := s'.lost,
                        written := s'.written, halted := s'.halted)
            && (f.packet.ArpPacket? ==>
                  !s'.halted && s'.written == s.written && Offered(s, s', accepted, f.(tag := Tag(f.tag.id, false, true, false, false))))
            && (f.packet.Other? ==>
                  !s'.halted && s'.written == s.written && Offered(s, s', accepted, f.(tag := Tag(0, false, false, false, true))))
            && (f.packet.IPv4? && (!Verified(f.packet.header, f.len) || host) ==> !s'.halted && Withheld(s, s', f))
            && (f.packet.IPv4? && Verified(f.packet.header, f.len) && !host && index == NH_INVALID ==> s'.halted && Withheld(s, s', f))
  {
    DiscardTag();
  }

  lemma WorkIs(c: Config, s: State, w: nat, accepted: bool, host: bool, index: nat)
    requires Safe(c, s) && Enabled(c, s, Work(w, accepted, host, index))
    ensures WorkResult(c, s, Worked(s, w, accepted, host, index), w, accepted, host)
  {
    var f := s.batches[w][0];
    assert f in s.batches[w] && Untouched(c, f);
    OtherWork(s, w, accepted, host, index, f);
    if f.packet.IPv4? {
      var h := f.packet.header;
      VerifiedExact(h, f.len);
      IndexExists(c, DestIp(h), index);
      if hop :| Resolves(RibOf(c.original), DestIp(h), hop) {
        if Verified(h, f.len) && !host {
          RoutedWork(c, s, w, accepted, index, hop);
        }
      }
    }
  }

  /** Every worker step of every run. */
  lemma WorkExact(c: Config, run: seq<State>, steps: seq<Step>, n: nat, w: nat, accepted: bool, host: bool, index: nat)
    requires IsRun(c, run, steps) && n < |steps| && steps[n] == Work(w, accepted, host, index)
    ensures w < |run[n].batches| && run[n].batches[w] != [] && WorkResult(c, run[n], run[n + 1], w, accepted, host)
  {
    RunSafe(c, run, steps, n);
    StepTo(c, run, steps, n + 1);
    WorkIs(c, run[n], w, accepted, host, index);
  }

  // The manager's second half.

  /** The frame leaves the egress queue and its buffer becomes free; nothing is sent. */
  ghost predicate ReclaimedAs(s: State, s': State, i: nat)
    requires i < |s.egress|
  {
    && s'.egress == s.egress[..i] + s.egress[i + 1..] && s'.free == s.free + [s.egress[i].buf]
    && s'.tx == s.tx && s'.sent == s.sent && s'.kept == s.kept
  }

  /** The frame leaves the egress queue for the ring whose turn it is: of the frames kept in a round, the
      k-th goes to ring k modulo the number of workers, on the interface of its tag. With space there
      its buffer is exchanged for the one in the slot, else it becomes free. */
  ghost predicate KeptAs(c: Config, s: State, s': State, i: nat, space: bool, slot: nat, g: Frame)
    requires i < |s.egress| && 0 < c.workers
  {
    && s'.egress == s.egress[..i] + s.egress[i + 1..] && s'.kept == s.kept + 1
    && if space then
         && slot < |s.tx| && slot / 2048 == g.tag.id * (c.workers + 1) + (s.kept + 1) % c.workers
         && s'.tx == s.tx[slot := g.buf] && s'.free == s.free + [s.tx[slot]]
         && s'.sent == s.sent + [g.(len := RouterOrigin.AtLeast60(g.len))]
       else s'.tx == s.tx && s'.free == s.free + [g.buf] && s'.sent == s.sent
  }

  /** The frame turned into a broadcast request for its destination, on its interface. */
  ghost predicate RequestIn(f: Frame, dst: Word, g: Frame) {
    && g.buf == f.buf && g.from == f.from && g.tag.id == f.tag.id && g.len == 42
    && g.packet == ArpPacket(0xffff_ffff_ffff, Arp.ArpFrame(1, ZERO, 0, dst, f.tag.id))
  }

  ghost predicate HasOwnAddress(c: Config, iface: nat) {
    iface in c.ips && |c.ips[iface]| > 0
  }

  /** An ARP frame: heard, learned from if it qualifies, and reclaimed exactly when it is a request for an
      address that is not on its interface. */
  ghost predicate ArpResult(c: Config, s: State, s': State, i: nat, space: bool, slot: nat, f: Frame, body: Arp.ArpFrame)
    requires i < |s.egress| && 0 < c.workers
  {
    && s'.heard == s.heard + [body] && s'.requests == s.requests
    && (if Arp.Qualifies(body, c.ips) then Arp.Learns(s.arp, body, s'.arp) else s'.arp == s.arp)
    && if RouterOrigin.Foreign(c, body, f.tag.id) then ReclaimedAs(s, s', i) else KeptAs(c, s, s', i, space, slot, f)
  }

  /** A packet that misses its MAC: dropped when a request for its destination was made within half a
      second, else turned into one. */
  ghost predicate AskResult(c: Config, s: State, s': State, i: nat, space: bool, slot: nat, checked: real, recorded: real, f: Frame, dst: Word)
    requires i < |s.egress| && 0 < c.workers
  {
    && s'.heard == s.heard && s'.arp == s.arp
    && if ArpPacing.Recent(s.requests, dst, checked) then ReclaimedAs(s, s', i) && s'.requests == s.requests
       else
         && s'.requests == s.requests + [Request(dst, f.tag.id, recorded)]
         && exists g :: RequestIn(f, dst, g) && KeptAs(c, s, s', i, space, slot, g)
  }

  ghost predicate DispatchResult(c: Config, s: State, s': State, i: nat, space: bool, slot: nat, checked: real, recorded: real)
    requires i < |s.egress| && 0 < c.workers
  {
    var f := s.egress[i];
    if !f.tag.discard && f.tag.noMac && f.packet.IPv4? && !ArpPacing.Recent(s.requests, DestIp(f.packet.header), checked)
       && !HasOwnAddress(c, f.tag.id) then s' == s.(halted := true)
    else
      && s' == s.(free := s'.free, tx := s'.tx, egress := s'.egress, sent := s'.sent, ring := s'.ring, kept := s'.kept,
                  arp := s'.arp, heard := s'.heard, missing := s'.missing, requests := s'.requests, clock := recorded)
      && if f.tag.discard then
           ReclaimedAs(s, s', i) && s'.arp == s.arp && s'.heard == s.heard && s'.requests == s.requests
         else
           match f.packet
           case ArpPacket(_, body) => ArpResult(c, s, s', i, space, slot, f, body.(iface := f.tag.id))
           case IPv4(_, h) =>
             if f.tag.noMac then AskResult(c, s, s', i, space, slot, checked, recorded, f, DestIp(h))
             else KeptAs(c, s, s', i, space, slot, f) && s'.arp == s.arp && s'.heard == s.heard && s'.requests == s.requests
           case Other => false
  }

  /** The ring number counts the frames kept in the round. */
  lemma RingNext(c: Config, k: nat)
    requires 0 < c.workers
    ensures NextRing(c, k % c.workers, false) == (k + 1) % c.workers
  {
    var w := c.workers;
    if k % w + 1 == w {
      assert k + 1 == w * (k / w + 1);
      MultipleMod(w, k / w + 1);
    } else {
      assert k + 1 == w * (k / w) + (k % w + 1);
      RestMod(w, k / w, k % w + 1);
    }
  }

  lemma MultipleMod(w: nat, q: nat)
    requires 0 < w
    ensures (w * q) % w == 0
  {
    RestMod(w, q, 0);
  }

  lemma RestMod(w: nat, q: nat, r: nat)
    requires r < w
    ensures (w * q + r) % w == r
  {
    var n: int := w * q + r;
    var d: int := n / w - q;
    assert n == w * (n / w) + n % w;
    assert w * d == r - n % w;
    SmallMultiple(w, d);
  }

  lemma SmallMultiple(w: int, d: int)
    requires 0 < w && -w < w * d < w
    ensures d == 0
  {
    assert d >= 1 ==> w * d >= w;
    assert d <= -1 ==> w * d <= -w;
  }

  lemma PlacedAs(c: Config, s: State, r: State, g: Frame, i: nat, space: bool, slot: nat)
    requires i < |s.egress| && (space ==> slot < |s.tx|) && 0 < c.workers && s.ring == s.kept % c.workers
    requires !s.egress[i].tag.host && g.buf == s.egress[i].buf
    requires space && !g.tag.discard ==> InRing(c, slot, g.tag.id, NextRing(c, s.ring, false))
    requires r.free == s.free && r.tx == s.tx && r.sent == s.sent && r.kept == s.kept && r.ring == s.ring
    ensures var s' := Placed(c, s, r, g, i, space, slot);
            && (if g.tag.discard then ReclaimedAs(s, s', i) else KeptAs(c, s, s', i, space, slot, g))
            && s' == r.(free := s'.free, tx := s'.tx, egress := s'.egress, sent := s'.sent, ring := s'.ring, kept := s'.kept)
            && s'.ring == s'.kept % c.workers
  {
    RingNext(c, s.kept);
  }

  /** The facts about a state that the steps of the manager rest on. */
  ghost predicate Steady(c: Config, s: State) {
    Safe(c, s) && ArpPacing.Paced(s) && s.ring == s.kept % c.workers
  }

  lemma ArpDispatch(c: Config, s: State, i: nat, space: bool, slot: nat, checked: real, recorded: real)
    requires Steady(c, s) && i < |s.egress| && (space ==> slot < |s.tx|)
    requires Enabled(c, s, Dispatch(i, space, slot, checked, recorded))
    requires s.egress[i].packet.ArpPacket? && !s.egress[i].tag.discard && EgressOk(c, s.heard, s.egress[i])
    ensures var s' := Dispatched(c, s, i, space, slot, checked, recorded);
            DispatchResult(c, s, s', i, space, slot, checked, recorded) && s'.ring == s'.kept % c.workers
  {
    var f := s.egress[i];
    var body := f.packet.body.(iface := f.tag.id);
    var (g, r) := Resolved(c, s, f, checked, recorded);
    DiscardTag();
    ArpLearned(c, s, body);
    assert g.tag.discard <==> RouterOrigin.Foreign(c, body, f.tag.id);
    assert !g.tag.discard ==> g == f;
    PlacedAs(c, s, r.(clock := recorded), g, i, space, slot);
  }

  lemma ArpLearned(c: Config, s: State, body: Arp.ArpFrame)
    requires Safe(c, s)
    ensures if Arp.Qualifies(body, c.ips) then Arp.Learns(s.arp, body, Arp.AfterFrame(s.arp, body, c.ips))
            else Arp.AfterFrame(s.arp, body, c.ips) == s.arp
  {
    forall e | e in c.mapping ensures Arp.NumberOf(s.arp.routing, e) != 0xffff {
      assert c.netmap[e.iface] < c.ifaces;
    }
    Arp.FrameExact(s.arp, body, c.ips);
  }

  /** A request that is not due: the packet is dropped. */
  lemma AskDrops(c: Config, s: State, i: nat, space: bool, slot: nat, checked: real, recorded: real, f: Frame)
    requires i < |s.egress| && s.egress[i] == f && (space ==> slot < |s.tx|) && !s.halted && f.packet.IPv4?
    requires f.tag == Tag(f.tag.id, true, false, false, false) && f.tag.id < 0x1000 && !Due(s, DestIp(f.packet.header), checked)
    ensures var s' := Dispatched(c, s, i, space, slot, checked, recorded);
            ReclaimedAs(s, s', i) && s' == s.(egress := s'.egress, free := s'.free, clock := recorded)
  {
    AskedFor(c, s, f, checked, recorded);
  }

  /** A request that is due, on an interface with an address. */
  lemma AskSends(c: Config, s: State, i: nat, space: bool, slot: nat, checked: real, recorded: real, f: Frame, dst: Word)
    requires i < |s.egress| && s.egress[i] == f && (space ==> slot < |s.tx|) && !s.halted && f.packet.IPv4? && dst == DestIp(f.packet.header)
    requires f.tag == Tag(f.tag.id, true, false, false, false) && f.tag.id < 0x1000 && Due(s, dst, checked) && HasAddress(c, f.tag.id)
    requires 0 < c.workers && s.ring == s.kept % c.workers
    requires space ==> InRing(c, slot, f.tag.id, NextRing(c, s.ring, false))
    ensures var s' := Dispatched(c, s, i, space, slot, checked, recorded);
            var g := Resolved(c, s, f, checked, recorded).0;
            && RequestIn(f, dst, g) && KeptAs(c, s, s', i, space, slot, g) && s'.ring == s'.kept % c.workers
            && s'.requests == s.requests + [Request(dst, f.tag.id, recorded)]
            && s' == s.(free := s'.free, tx := s'.tx, egress := s'.egress, sent := s'.sent, ring := s'.ring, kept := s'.kept,
                        missing := s'.missing, requests := s'.requests, clock := recorded)
  {
    AskedFor(c, s, f, checked, recorded);
    AskFrame(c, s, f, checked, recorded);
    ResolvedElse(c, s, f, checked, recorded);
    var (g, r) := Resolved(c, s, f, checked, recorded);
    PlacedAs(c, s, r.(clock := recorded), g, i, space, slot);
  }

  lemma AskDispatch(c: Config, s: State, i: nat, space: bool, slot: nat, checked: real, recorded: real)
    requires Steady(c, s) && i < |s.egress| && (space ==> slot < |s.tx|)
    requires Enabled(c, s, Dispatch(i, space, slot, checked, recorded))
    requires s.egress[i].tag.noMac && EgressOk(c, s.heard, s.egress[i])
    ensures var s' := Dispatched(c, s, i, space, slot, checked, recorded);
            DispatchResult(c, s, s', i, space, slot, checked, recorded) && (s'.halted || s'.ring == s'.kept % c.workers)
  {
    var f := s.egress[i];
    var dst := DestIp(f.packet.header);
    ArpPacing.DueExact(s, dst, checked);
    AskedFor(c, s, f, checked, recorded);
    if !Due(s, dst, checked) {
      AskDrops(c, s, i, space, slot, checked, recorded, f);
    } else if HasAddress(c, f.tag.id) {
      AskSends(c, s, i, space, slot, checked, recorded, f, dst);
    }
  }

  lemma AskFrame(c: Config, s: State, f: Frame, checked: real, recorded: real)
    requires f.packet.IPv4? && f.tag == Tag(f.tag.id, true, false, false, false) && f.tag.id < 0x1000
    requires Due(s, DestIp(f.packet.header), checked) && HasAddress(c, f.tag.id)
    ensures var (g, r) := Resolved(c, s, f, checked, recorded); RequestIn(f, DestIp(f.packet.header), g)
  {
    SmallTag(f.tag.id);
  }

  /** Resolving a frame without a MAC touches the log of requests only. */
  lemma ResolvedElse(c: Config, s: State, f: Frame, checked: real, recorded: real)
    requires f.packet.IPv4?
    ensures var (g, r) := Resolved(c, s, f, checked, recorded);
            g.buf == f.buf && r == s.(missing := r.missing, requests := r.requests, halted := r.halted)
  {
  }

  lemma PlainDispatch(c: Config, s: State, i: nat, space: bool, slot: nat, checked: real, recorded: real)
    requires Steady(c, s) && i < |s.egress| && (space ==> slot < |s.tx|)
    requires Enabled(c, s, Dispatch(i, space, slot, checked, recorded))
    requires !s.egress[i].tag.noMac && EgressOk(c, s.heard, s.egress[i])
    requires s.egress[i].tag.discard || s.egress[i].packet.IPv4?
    ensures var s' := Dispatched(c, s, i, space, slot, checked, recorded);
            DispatchResult(c, s, s', i, space, slot, checked, recorded) && s'.ring == s'.kept % c.workers
  {
    var f := s.egress[i];
    assert Resolved(c, s, f, checked, recorded) == (f, s);
    PlacedAs(c, s, s.(clock := recorded), f, i, space, slot);
  }

  lemma DispatchIs(c: Config, s: State, i: nat, space: bool, slot: nat, checked: real, recorded: real)
    requires Steady(c, s) && i < |s.egress| && (space ==> slot < |s.tx|)
    requires Enabled(c, s, Dispatch(i, space, slot, checked, recorded))
    ensures var s' := Dispatched(c, s, i, space, slot, checked, recorded);
            DispatchResult(c, s, s', i, space, slot, checked, recorded) && (s'.halted || s'.ring == s'.kept % c.workers)
  {
    var f := s.egress[i];
    assert f in s.egress && EgressOk(c, s.heard, f);
    if f.tag.noMac {
      AskDispatch(c, s, i, space, slot, checked, recorded);
    } else if f.tag.discard || f.packet.IPv4? {
      PlainDispatch(c, s, i, space, slot, checked, recorded);
    } else {
      ArpDispatch(c, s, i, space, slot, checked, recorded);
    }
  }

  /** In every state of every run the ring number is the number of frames kept in the round, modulo the
      number of workers. */
  lemma {:induction false} RingExact(c: Config, run: seq<State>, steps: seq<Step>, n: nat)
    requires IsRun(c, run, steps) && n < |run|
    ensures run[n].ring == run[n].kept % c.workers
  {
    if n > 0 {
      RingExact(c, run, steps, n - 1);
      RunSafe(c, run, steps, n - 1);
      ArpPacing.RunPaced(c, run, steps, n - 1);
      StepTo(c, run, steps, n);
      RingStep(c, run[n - 1], steps[n - 1]);
    }
  }

  lemma RingStep(c: Config, s: State, step: Step)
    requires Steady(c, s) && Enabled(c, s, step)
    ensures Next(c, s, step).ring == Next(c, s, step).kept % c.workers
  {
    if step.Dispatch? {
      DispatchIs(c, s, step.position, step.space, step.slot, step.checked, step.recorded);
    }
  }

  /** The transmit ring a kept frame goes to exists, with all its slots. */
  lemma RingExists(c: Config, run: seq<State>, steps: seq<Step>, n: nat, i: nat, slot: nat, checked: real, recorded: real)
    requires IsRun(c, run, steps) && n < |run| && i < |run[n].egress|
    ensures var (f, _) := Resolved(c, run[n], run[n].egress[i], checked, recorded);
            var ring := (run[n].kept + 1) % c.workers;
            && 0 < c.workers && ring < c.workers
            && (!f.tag.discard ==>
                  && NextRing(c, run[n].ring, run[n].egress[i].tag.host) == ring
                  && (slot / 2048 == f.tag.id * (c.workers + 1) + ring ==> slot < |run[0].tx|))
  {
    RunSafe(c, run, steps, n);
    RingExact(c, run, steps, n);
    RingNext(c, run[n].kept);
    var f := run[n].egress[i];
    assert f in run[n].egress && EgressOk(c, run[n].heard, f);
    RingInRange(c, run[n], f, checked, recorded);
    var (g, _) := Resolved(c, run[n], f, checked, recorded);
    var ring := (run[n].kept + 1) % c.workers;
    if !g.tag.discard && slot / 2048 == g.tag.id * (c.workers + 1) + ring {
      SlotBound(c.ifaces, c.workers, g.tag.id, ring, slot);
    }
  }

  /** Every dispatch of every run. */
  lemma DispatchExact(c: Config, run: seq<State>, steps: seq<Step>, n: nat, i: nat, space: bool, slot: nat, checked: real, recorded: real)
    requires IsRun(c, run, steps) && n < |steps| && steps[n] == Dispatch(i, space, slot, checked, recorded)
    ensures 0 < c.workers && i < |run[n].egress|
    ensures DispatchResult(c, run[n], run[n + 1], i, space, slot, checked, recorded)
  {
    RunSafe(c, run, steps, n);
    ArpPacing.RunPaced(c, run, steps, n);
    RingExact(c, run, steps, n);
    StepTo(c, run, steps, n + 1);
    DispatchIs(c, run[n], i, space, slot, checked, recorded);
  }

  // Receiving and queueing.

  /** The other steps: a filled slot is logged and put into a frame with its buffer, and gets the last
      free one; a bulk goes to the end of the ingress queue or is lost; a worker takes from its front. */
  ghost predicate QueueResult(c: Config, s: State, s': State, step: Step) {
    match step
    case Receive(slot, iface, len, packet) =>
      && slot < |s.rx| && s.free != []
      && s' == s.(free := s.free[..|s.free| - 1], rx := s.rx[slot := s.free[|s.free| - 1]],
                  pending := s.pending + [Frame(s.rx[slot], len, Tag(iface, false, false, false, false), packet, |s.received|)],
                  received := s.received + [Arrived(s.rx[slot], iface, len, packet)])
    case Flush(accepted) =>
      if accepted then s' == s.(pending := [], ingress := s.ingress + s.pending)
      else
        && s' == s.(pending := [], lost := s'.lost) && |s'.lost| == |s.lost| + |s.pending| && s.lost <= s'.lost
        && forall k :: 0 <= k < |s.pending| ==> s'.lost[|s.lost| + k] == s.pending[k].buf
    case TakeBatch(w, count) =>
      && w < |s.batches| && count <= |s.ingress|
      && s' == s.(ingress := s.ingress[count..], batches := s.batches[w := s.ingress[..count]])
    case BeginRound => s' == s.(ring := 0, kept := 0)
    case _ => true
  }

  lemma QueueExact(c: Config, run: seq<State>, steps: seq<Step>, n: nat)
    requires IsRun(c, run, steps) && n < |steps|
    ensures QueueResult(c, run[n], run[n + 1], steps[n])
  {
    StepTo(c, run, steps, n + 1);
    if steps[n].Receive? {
      SmallTag(steps[n].iface);
    }
  }
}
