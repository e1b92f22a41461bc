/** Safety of every run of the router: what is on the queues, where MAC addresses come from,
    and which rings are used. */
module RouterSafety {
  import opened Words
  import opened Rib
  import opened Routes
  import opened Numbering
  import opened Reading
  import opened EndToEnd
  import opened Checksum
  import opened Router
  import RouterOrigin
  import ArpPacing
  import Arp

  /** A frame no worker has looked at: an interface number and no flags. */
  ghost predicate Untouched(c: Config, f: Frame) {
    f.tag == Tag(f.tag.id, false, false, false, false) && f.tag.id < c.ifaces
  }

  ghost function Taught(f: Arp.ArpFrame): Arp.NextHop {
    Arp.NextHop(f.senderMac, f.iface)
  }

  /** Some handled ARP frame taught this MAC address for this sender address on this interface. */
  ghost predicate HeardFrom(c: Config, heard: seq<Arp.ArpFrame>, ip: Word, nh: Arp.NextHop) {
    exists j :: 0 <= j < |heard| && heard[j].senderIp == ip && Taught(heard[j]) == nh && Arp.Qualifies(heard[j], c.ips)
  }

  /** The frame teaches an address that is not a gateway on the interface it came in on. */
  ghost predicate Introduces(c: Config, f: Arp.ArpFrame, ip: Word) {
    && f.senderIp == ip && Arp.Qualifies(f, c.ips)
    && Arp.GatewayAt(Arp.Routing(c.mapping, c.netmap), ip, f.iface) == |c.mapping|
  }

  /** The neighbour was first heard at position `j`. */
  ghost predicate FirstAt(c: Config, heard: seq<Arp.ArpFrame>, ip: Word, j: nat) {
    j < |heard| && Introduces(c, heard[j], ip) && forall i :: 0 <= i < j ==> !Introduces(c, heard[i], ip)
  }

  ghost predicate FirstHeard(c: Config, heard: seq<Arp.ArpFrame>, ip: Word, nh: Arp.NextHop) {
    exists j: nat :: FirstAt(c, heard, ip, j) && Taught(heard[j]) == nh
  }

  /** The frame teaches this address on this interface. */
  ghost predicate TaughtBy(c: Config, f: Arp.ArpFrame, ip: Word, number: nat) {
    Arp.Qualifies(f, c.ips) && f.senderIp == ip && f.iface == number
  }

  /** It was last taught at position `j`. */
  ghost predicate LastFrom(c: Config, heard: seq<Arp.ArpFrame>, ip: Word, number: nat, j: nat) {
    j < |heard| && TaughtBy(c, heard[j], ip, number) && forall k :: j < k < |heard| ==> !TaughtBy(c, heard[k], ip, number)
  }

  /** The MAC last taught, or zero. */
  ghost predicate LastMac(c: Config, heard: seq<Arp.ArpFrame>, ip: Word, number: nat, mac: Arp.Mac) {
    || (exists j: nat :: LastFrom(c, heard, ip, number, j) && heard[j].senderMac == mac)
    || (mac == 0 && forall j :: 0 <= j < |heard| ==> !TaughtBy(c, heard[j], ip, number))
  }

  ghost predicate DirectOk(c: Config, heard: seq<Arp.ArpFrame>, direct: map<Word, Arp.NextHop>) {
    && (forall ip :: ip in direct ==> FirstHeard(c, heard, ip, direct[ip]) && direct[ip].iface < c.ifaces)
    && (forall ip, j :: 0 <= j < |heard| && ip !in direct ==> !Introduces(c, heard[j], ip))
  }

  ghost predicate ArpOk(c: Config, arp: Arp.State, heard: seq<Arp.ArpFrame>) {
    && arp.routing == Arp.Routing(c.mapping, c.netmap)
    && |arp.current| == |c.mapping|
    && (forall k :: 0 <= k < |c.mapping| ==> arp.current[k].iface == Arp.IfaceOf(arp.routing, c.mapping[k]))
    && (forall k :: 0 <= k < |c.mapping| ==>
          LastMac(c, heard, c.mapping[k].ip, Arp.NumberOf(arp.routing, c.mapping[k]), arp.current[k].mac))
    && DirectOk(c, heard, arp.direct)
  }

  /** The number belongs to an interface that the original routes use with this gateway. */
  ghost predicate OnInterface(c: Config, gateway: Word, number: nat) {
    exists i :: Hop(gateway, i) in HopsOf(c.original) && i in c.netmap && c.netmap[i] == number
  }

  /** The next hop's MAC and interface are vouched for: heard from the gateway on an interface it
      is used on, or as the neighbour was first heard. */
  ghost predicate Vouched(c: Config, heard: seq<Arp.ArpFrame>, dst: Word, h: Hop, nh: Arp.NextHop) {
    if h.gateway == ZERO then FirstHeard(c, heard, dst, nh)
    else HeardFrom(c, heard, h.gateway, nh) && OnInterface(c, h.gateway, nh.iface)
  }

  /** They are, for the longest match of the packet in the original routing information. */
  ghost predicate Justified(c: Config, heard: seq<Arp.ArpFrame>, dst: Word, nh: Arp.NextHop)
    requires CanonicalTable(c.original)
  {
    exists h :: Resolves(RibOf(c.original), dst, h) && Vouched(c, heard, dst, h, nh)
  }

  /** An interface to ask on when the MAC is missing: the gateway's, the direct route's, or the one
      on which the neighbour was first heard, with a MAC of zero. */
  ghost predicate AskOn(c: Config, heard: seq<Arp.ArpFrame>, dst: Word, h: Hop, number: nat) {
    if h.gateway != ZERO then OnInterface(c, h.gateway, number)
    else (h.iface in c.netmap && c.netmap[h.iface] == number) || FirstHeard(c, heard, dst, Arp.NextHop(0, number))
  }

  ghost predicate Asking(c: Config, heard: seq<Arp.ArpFrame>, dst: Word, number: nat)
    requires CanonicalTable(c.original)
  {
    exists h :: Resolves(RibOf(c.original), dst, h) && AskOn(c, heard, dst, h, number)
  }

  ghost predicate WrittenOk(c: Config, s: State, w: Written)
    requires CanonicalTable(c.original)
  {
    w.heard <= |s.heard| && Justified(c, s.heard[..w.heard], w.dst, Arp.NextHop(w.mac, w.iface))
  }

  /** An IPv4 frame ready for the wire: the checksum balances, and MAC address and interface were
      taught by the right neighbour. */
  ghost predicate Routed(c: Config, heard: seq<Arp.ArpFrame>, f: Frame)
    requires CanonicalTable(c.original)
  {
    && f.packet.IPv4? && OnesSum(Covered(f.packet.header)) == 0xffff
    && Justified(c, heard, DestIp(f.packet.header), Arp.NextHop(f.packet.dMac, f.tag.id))
  }

  /** An IPv4 frame whose next hop has no MAC, on the interface of that next hop. */
  ghost predicate Unresolved(c: Config, heard: seq<Arp.ArpFrame>, f: Frame)
    requires CanonicalTable(c.original)
  {
    && f.packet.IPv4? && OnesSum(Covered(f.packet.header)) == 0xffff
    && Asking(c, heard, DestIp(f.packet.header), f.tag.id)
  }

  /** A frame on the egress queue: never for the host; to be discarded, or on an existing
      interface and either an ARP frame, or a routed packet, or one whose MAC is missing. */
  ghost predicate EgressOk(c: Config, heard: seq<Arp.ArpFrame>, f: Frame)
    requires CanonicalTable(c.original)
  {
    && !f.tag.host
    && if f.tag.discard then !f.tag.noMac && !f.tag.arp
       else
         && f.tag.id < c.ifaces
         && if f.tag.arp then f.packet.ArpPacket? && !f.tag.noMac
            else if f.tag.noMac then Unresolved(c, heard, f)
            else Routed(c, heard, f)
  }

  /** A frame handed to a transmit ring. */
  ghost predicate SentOk(c: Config, heard: seq<Arp.ArpFrame>, f: Frame)
    requires CanonicalTable(c.original)
  {
    f.tag.id < c.ifaces && (f.packet.ArpPacket? || Routed(c, heard, f))
  }

  ghost predicate QueuesOk(c: Config, s: State)
    requires CanonicalTable(c.original)
  {
    && |s.batches| == c.workers
    && (forall f :: f in s.pending ==> Untouched(c, f))
    && (forall f :: f in s.ingress ==> Untouched(c, f))
    && (forall w, f :: 0 <= w < |s.batches| && f in s.batches[w] ==> Untouched(c, f))
    && (forall f :: f in s.egress ==> EgressOk(c, s.heard, f))
    && (forall f :: f in s.sent ==> SentOk(c, s.heard, f))
  }

  /** What was written and asked for so far is in order. */
  ghost predicate LogsOk(c: Config, s: State)
    requires CanonicalTable(c.original)
  {
    && (forall w :: w in s.written ==> WrittenOk(c, s, w))
    && (forall q :: q in s.requests ==> Asking(c, s.heard, q.ip, q.iface))
  }

  ghost predicate Safe(c: Config, s: State) {
    ConfigOk(c) && s.ring < c.workers && QueuesOk(c, s) && ArpOk(c, s.arp, s.heard) && LogsOk(c, s)
  }

  lemma SmallTag(n: nat)
    requires n < 0x1000
    ensures TagOf(n) == Tag(n, false, false, false, false)
  {
  }

  lemma DiscardTag()
    ensures TagOf(0x8000) == Tag(0, false, false, false, true)
  {
  }

  /** A lookup that found something names the next hop of the longest match in the original
      table, interface included when no gateway is used on two. */
  lemma LookupHop(c: Config, dst: Word, index: nat) returns (h: Hop)
    requires ConfigOk(c) && IsRead(c.table, dst, index) && index != NH_INVALID
    ensures Resolves(RibOf(c.original), dst, h)
    ensures Reaches(HopsOf(c.original), h, c.netmap, Decode(index, c.mapping))
    ensures OneInterface(c.original) ==> ReadsAs(h, c.netmap, Decode(index, c.mapping))
    ensures index < NH_DIRECTLY_CONNECTED ==> index < |c.mapping|
    ensures index < 0xffff
  {
    UpdateThenLookup(c.original, c.table, c.mapping, c.netmap, dst, index);
    GatewayIndexInRange(c.original, c.table, c.mapping, c.netmap, dst, index);
    assert Decode(index, c.mapping) != Unrouted;
    h :| Resolves(RibOf(c.original), dst, h);
  }

  /** The original table has one answer for an address. */
  lemma OneAnswer(c: Config, dst: Word, g: Hop, h: Hop)
    requires ConfigOk(c) && Resolves(RibOf(c.original), dst, g) && Resolves(RibOf(c.original), dst, h)
    ensures g == h
  {
    ReadResolves(c.original, dst, g);
    ReadResolves(c.original, dst, h);
  }

  lemma HopInTable(c: Config, dst: Word, h: Hop)
    requires ConfigOk(c) && Resolves(RibOf(c.original), dst, h)
    ensures h in HopsOf(c.original)
  {
    var r := SameRoute(c.original, c.table, dst, h);
    var k :| 0 <= k < 33 && r in c.table[k];
  }

  /** The interface of a next hop exists and is that of the longest match; with a MAC address the
      next hop is vouched for. */
  ghost predicate NextHopOk(c: Config, heard: seq<Arp.ArpFrame>, dst: Word, h: Hop, nh: Arp.NextHop) {
    nh.iface < c.ifaces && if Arp.Usable(nh) then Vouched(c, heard, dst, h, nh) else AskOn(c, heard, dst, h, nh.iface)
  }

  /** The entry of a gateway in the current table is on an interface the routes use with it. */
  lemma GatewayEntry(c: Config, s: State, k: nat)
    requires ConfigOk(c) && ArpOk(c, s.arp, s.heard) && k < |c.mapping|
    ensures OnInterface(c, c.mapping[k].ip, s.arp.current[k].iface) && s.arp.current[k].iface < c.ifaces
    ensures s.arp.current[k].iface == Arp.NumberOf(s.arp.routing, c.mapping[k])
    ensures s.arp.current[k].mac != 0 ==> HeardFrom(c, s.heard, c.mapping[k].ip, s.arp.current[k])
  {
    var e := c.mapping[k];
    assert e in c.mapping;
    assert Hop(e.ip, e.iface) in HopsOf(c.original);
    Arp.SmallNumber(s.arp.routing, e);
  }

  lemma NeighbourEntry(c: Config, s: State, dst: Word, index: nat, h: Hop)
    requires ArpOk(c, s.arp, s.heard) && c.ifaces <= 0x1000 && NH_DIRECTLY_CONNECTED <= index && h.gateway == ZERO
    requires h.iface in c.netmap && c.netmap[h.iface] == index - NH_DIRECTLY_CONNECTED < c.ifaces
    ensures NextHopOk(c, s.heard, dst, h, NextHopFor(s, dst, index))
  {
  }

  /** So it is for every packet with a route. */
  lemma NextHopInRange(c: Config, s: State, dst: Word, index: nat) returns (h: Hop)
    requires ConfigOk(c) && ArpOk(c, s.arp, s.heard) && IsRead(c.table, dst, index) && index != NH_INVALID
    ensures Resolves(RibOf(c.original), dst, h) && NextHopOk(c, s.heard, dst, h, NextHopFor(s, dst, index))
  {
    h := LookupHop(c, dst, index);
    if index < NH_DIRECTLY_CONNECTED {
      GatewayEntry(c, s, index);
    } else {
      HopInTable(c, dst, h);
      NeighbourEntry(c, s, dst, index, h);
    }
  }

  lemma ForwardedDest(h: Header)
    ensures DestIp(Forwarded(h)) == DestIp(h)
  {
  }

  /** What a worker may leave behind. */
  ghost predicate OutcomeOk(c: Config, s: State, o: Outcome)
    requires CanonicalTable(c.original)
  {
    && (o.offered ==> EgressOk(c, s.heard, o.frame))
    && forall w :: w in o.written ==> w.heard == |s.heard| && Justified(c, s.heard, w.dst, Arp.NextHop(w.mac, w.iface))
  }

  /** A packet handed on with or without the MAC of its next hop. */
  lemma HandedOnOk(c: Config, s: State, f: Frame, dMac: Arp.Mac, h: Header, index: nat, hop: Hop)
    requires CanonicalTable(c.original) && c.ifaces <= 0x1000 && index != NH_INVALID
    requires OnesSum(Covered(h)) == 0xffff && Resolves(RibOf(c.original), DestIp(h), hop)
    requires NextHopOk(c, s.heard, DestIp(h), hop, NextHopFor(s, DestIp(h), index))
    ensures OutcomeOk(c, s, Forwarding(s, f, dMac, h, index)) && !Forwarding(s, f, dMac, h, index).halt
  {
    SmallTag(NextHopFor(s, DestIp(h), index).iface);
  }

  lemma ForwardingOk(c: Config, s: State, f: Frame, dMac: Arp.Mac, h: Header, index: nat)
    requires ConfigOk(c) && ArpOk(c, s.arp, s.heard) && IsRead(c.table, DestIp(h), index) && OnesSum(Covered(h)) == 0xffff
    ensures OutcomeOk(c, s, Forwarding(s, f, dMac, h, index))
    ensures Forwarding(s, f, dMac, h, index).halt <==> index == NH_INVALID
  {
    if index != NH_INVALID {
      var hop := NextHopInRange(c, s, DestIp(h), index);
      HandedOnOk(c, s, f, dMac, h, index, hop);
    }
  }

  /** An IPv4 packet that is offered had an acceptable header, and is one hop further. */
  ghost predicate OneHop(f: Frame, o: Outcome) {
    f.packet.IPv4? && o.offered ==>
      && Acceptable(f.packet.header, f.len) && o.frame.buf == f.buf && o.frame.len == f.len
      && o.frame.packet.IPv4? && Hopped(f.packet.header, o.frame.packet.header)
  }

  lemma ProcessedHops(s: State, f: Frame, host: bool, index: nat)
    ensures OneHop(f, Processed(s, f, host, index))
  {
    if f.packet.IPv4? && Verified(f.packet.header, f.len) {
      VerifiedExact(f.packet.header, f.len);
      HoppedExact(f.packet.header, Forwarded(f.packet.header));
    }
  }

  /** Whatever a worker offers to the egress queue is in order, and so is a MAC it wrote. The
      program aborts only for a packet that has no route. */
  lemma ProcessedOk(c: Config, s: State, f: Frame, host: bool, index: nat)
    requires ConfigOk(c) && ArpOk(c, s.arp, s.heard) && Untouched(c, f)
    requires f.packet.IPv4? ==> IsRead(c.table, DestIp(f.packet.header), index)
    ensures OutcomeOk(c, s, Processed(s, f, host, index)) && OneHop(f, Processed(s, f, host, index))
    ensures Processed(s, f, host, index).halt ==> f.packet.IPv4? && index == NH_INVALID
  {
    ProcessedHops(s, f, host, index);
    DiscardTag();
    if f.packet.IPv4? && Verified(f.packet.header, f.len) && !host {
      ForwardedSum(f.packet.header, f.len);
      ForwardedDest(f.packet.header);
      ForwardingOk(c, s, f, f.packet.dMac, Forwarded(f.packet.header), index);
    }
  }

  lemma FirstStays(c: Config, heard: seq<Arp.ArpFrame>, more: seq<Arp.ArpFrame>, ip: Word, nh: Arp.NextHop)
    requires heard <= more && FirstHeard(c, heard, ip, nh)
    ensures FirstHeard(c, more, ip, nh)
  {
    var j: nat :| FirstAt(c, heard, ip, j) && Taught(heard[j]) == nh;
    assert FirstAt(c, more, ip, j);
  }

  /** The table of neighbours keeps what was heard first. */
  lemma DirectStep(c: Config, heard: seq<Arp.ArpFrame>, direct: map<Word, Arp.NextHop>, f: Arp.ArpFrame)
    requires DirectOk(c, heard, direct) && f.iface < c.ifaces
    ensures Introduces(c, f, f.senderIp) ==> DirectOk(c, heard + [f], Arp.InsertFirst(direct, f.senderIp, Taught(f)))
    ensures !Introduces(c, f, f.senderIp) ==> DirectOk(c, heard + [f], direct)
  {
    var more, ip := heard + [f], f.senderIp;
    forall x, nh | FirstHeard(c, heard, x, nh) ensures FirstHeard(c, more, x, nh) {
      FirstStays(c, heard, more, x, nh);
    }
    if Introduces(c, f, ip) && ip !in direct {
      assert more[|heard|] == f;
      assert FirstAt(c, more, ip, |heard|);
    }
  }

  /** Handling an ARP frame keeps every table entry backed by a frame that was heard. */
  lemma ArpStep(c: Config, s: State, s': State, f: Arp.ArpFrame)
    requires Dense(c.mapping) && ArpOk(c, s.arp, s.heard) && f.iface < c.ifaces <= 0x1000
    requires s'.arp == Arp.AfterFrame(s.arp, f, c.ips) && s'.heard == s.heard + [f]
    ensures ArpOk(c, s'.arp, s'.heard)
  {
    DirectStep(c, s.heard, s.arp.direct, f);
    forall k | 0 <= k < |c.mapping|
      ensures LastMac(c, s'.heard, c.mapping[k].ip, Arp.NumberOf(s.arp.routing, c.mapping[k]), s'.arp.current[k].mac)
    {
      LastMacStep(c, s.heard, f, c.mapping[k].ip, Arp.NumberOf(s.arp.routing, c.mapping[k]), s.arp.current[k].mac);
    }
  }

  lemma LastMacStep(c: Config, heard: seq<Arp.ArpFrame>, f: Arp.ArpFrame, ip: Word, number: nat, mac: Arp.Mac)
    requires LastMac(c, heard, ip, number, mac)
    ensures TaughtBy(c, f, ip, number) ==> LastMac(c, heard + [f], ip, number, f.senderMac)
    ensures !TaughtBy(c, f, ip, number) ==> LastMac(c, heard + [f], ip, number, mac)
  {
    var more := heard + [f];
    assert more[|heard|] == f;
    if TaughtBy(c, f, ip, number) {
      assert LastFrom(c, more, ip, number, |heard|);
    } else if j: nat :| LastFrom(c, heard, ip, number, j) && heard[j].senderMac == mac {
      assert LastFrom(c, more, ip, number, j);
    }
  }

  lemma WrittenStays(c: Config, s: State, s': State, w: Written)
    requires CanonicalTable(c.original) && WrittenOk(c, s, w) && s.heard <= s'.heard
    ensures WrittenOk(c, s', w)
  {
    assert s'.heard[..w.heard] == s.heard[..w.heard];
  }

  lemma WorkSafe(c: Config, s: State, w: nat, accepted: bool, host: bool, index: nat)
    requires Safe(c, s) && Enabled(c, s, Work(w, accepted, host, index))
    ensures Safe(c, Worked(s, w, accepted, host, index))
  {
    var f := s.batches[w][0];
    var o := Processed(s, f, host, index);
    assert f in s.batches[w];
    ProcessedOk(c, s, f, host, index);
    var s' := Worked(s, w, accepted, host, index);
    assert s.heard[..|s.heard|] == s.heard;
    forall x | x in s'.written ensures WrittenOk(c, s', x) {
      if x in s.written {
        WrittenStays(c, s, s', x);
      }
    }
    assert s'.requests == s.requests && s'.heard == s.heard;
    WorkQueues(c, s, w, accepted, host, index);
  }

  lemma WorkQueues(c: Config, s: State, w: nat, accepted: bool, host: bool, index: nat)
    requires CanonicalTable(c.original) && QueuesOk(c, s) && w < |s.batches| && s.batches[w] != []
    requires var o := Processed(s, s.batches[w][0], host, index); o.offered ==> EgressOk(c, s.heard, o.frame)
    ensures QueuesOk(c, Worked(s, w, accepted, host, index))
  {
  }

  /** What vouched for a next hop before still does when more has been heard. */
  lemma StillVouched(c: Config, heard: seq<Arp.ArpFrame>, more: seq<Arp.ArpFrame>, dst: Word, h: Hop, nh: Arp.NextHop)
    requires heard <= more && Vouched(c, heard, dst, h, nh)
    ensures Vouched(c, more, dst, h, nh)
  {
    if h.gateway == ZERO {
      FirstStays(c, heard, more, dst, nh);
    } else {
      var j :| 0 <= j < |heard| && heard[j].senderIp == h.gateway && Taught(heard[j]) == nh && Arp.Qualifies(heard[j], c.ips);
      assert more[j] == heard[j];
    }
  }

  lemma StillAsking(c: Config, heard: seq<Arp.ArpFrame>, more: seq<Arp.ArpFrame>, dst: Word, number: nat)
    requires CanonicalTable(c.original) && heard <= more && Asking(c, heard, dst, number)
    ensures Asking(c, more, dst, number)
  {
    var h :| Resolves(RibOf(c.original), dst, h) && AskOn(c, heard, dst, h, number);
    if FirstHeard(c, heard, dst, Arp.NextHop(0, number)) {
      FirstStays(c, heard, more, dst, Arp.NextHop(0, number));
    }
    assert AskOn(c, more, dst, h, number);
  }

  lemma FramesStayOk(c: Config, heard: seq<Arp.ArpFrame>, more: seq<Arp.ArpFrame>, f: Frame)
    requires CanonicalTable(c.original) && heard <= more
    ensures EgressOk(c, heard, f) ==> EgressOk(c, more, f)
    ensures SentOk(c, heard, f) ==> SentOk(c, more, f)
  {
    if Routed(c, heard, f) {
      var dst, nh := DestIp(f.packet.header), Arp.NextHop(f.packet.dMac, f.tag.id);
      var h :| Resolves(RibOf(c.original), dst, h) && Vouched(c, heard, dst, h, nh);
      StillVouched(c, heard, more, dst, h, nh);
    }
    if Unresolved(c, heard, f) {
      StillAsking(c, heard, more, DestIp(f.packet.header), f.tag.id);
    }
  }

  /** What resolving a frame leaves: a frame that may be sent unless it is discarded, tables backed
      by what was heard, and requests in order. */
  ghost predicate ResolutionOk(c: Config, s: State, g: Frame, r: State)
    requires CanonicalTable(c.original)
  {
    && (!g.tag.discard ==> g.tag.id < c.ifaces && (r.halted || SentOk(c, s.heard, g)))
    && ArpOk(c, r.arp, r.heard) && s.heard <= r.heard
    && (forall q :: q in r.requests ==> q in s.requests || Asking(c, s.heard, q.ip, q.iface))
    && r == s.(arp := r.arp, heard := r.heard, missing := r.missing, requests := r.requests, halted := r.halted)
  }

  lemma AskedOk(c: Config, s: State, f: Frame, checked: real, recorded: real)
    requires CanonicalTable(c.original) && c.ifaces <= 0x1000
    requires ArpOk(c, s.arp, s.heard) && EgressOk(c, s.heard, f) && f.tag.noMac
    ensures var (g, r) := Resolved(c, s, f, checked, recorded); ResolutionOk(c, s, g, r)
  {
    SmallTag(f.tag.id);
  }

  lemma ResolvedOk(c: Config, s: State, f: Frame, checked: real, recorded: real)
    requires ConfigOk(c) && ArpOk(c, s.arp, s.heard) && EgressOk(c, s.heard, f)
    ensures var (g, r) := Resolved(c, s, f, checked, recorded); ResolutionOk(c, s, g, r)
  {
    DiscardTag();
    if f.tag.arp {
      var (g, r) := Resolved(c, s, f, checked, recorded);
      ArpStep(c, s, r, f.packet.body.(iface := f.tag.id));
    } else if f.tag.noMac {
      AskedOk(c, s, f, checked, recorded);
    }
  }

  lemma RingStays(c: Config, ring: nat)
    requires ring < c.workers
    ensures NextRing(c, ring, false) < c.workers
  {
  }

  /** Placing a resolved frame keeps the queues and the log of sent frames in order. */
  lemma PlaceQueues(c: Config, s: State, r: State, f: Frame, i: nat, space: bool, slot: nat)
    requires CanonicalTable(c.original) && QueuesOk(c, s) && i < |s.egress| && (space ==> slot < |s.tx|)
    requires s.heard <= r.heard && (!f.tag.discard ==> SentOk(c, s.heard, f))
    requires r.batches == s.batches && r.pending == s.pending && r.ingress == s.ingress && r.sent == s.sent
    ensures QueuesOk(c, Placed(c, s, r, f, i, space, slot))
  {
    var s' := Placed(c, s, r, f, i, space, slot);
    forall g | g in s'.egress ensures EgressOk(c, s'.heard, g) {
      assert g in s.egress;
      FramesStayOk(c, s.heard, s'.heard, g);
    }
    forall g | g in s'.sent ensures SentOk(c, s'.heard, g) {
      FramesStayOk(c, s.heard, s'.heard, g);
    }
  }

  lemma DispatchSafe(c: Config, s: State, i: nat, space: bool, slot: nat, checked: real, recorded: real)
    requires Safe(c, s) && i < |s.egress| && (space ==> slot < |s.tx|)
    ensures Safe(c, Dispatched(c, s, i, space, slot, checked, recorded))
  {
    assert s.egress[i] in s.egress;
    ResolvedOk(c, s, s.egress[i], checked, recorded);
    var (f, r) := Resolved(c, s, s.egress[i], checked, recorded);
    if r.halted {
      StoppedSafe(c, s);
    } else {
      PlaceSafe(c, s, r.(clock := recorded), f, i, space, slot);
    }
  }

  lemma StoppedSafe(c: Config, s: State)
    requires Safe(c, s)
    ensures Safe(c, s.(halted := true))
  {
    assert forall x :: x in s.written ==> WrittenOk(c, s, x) && WrittenOk(c, s.(halted := true), x);
  }

  lemma PlaceSafe(c: Config, s: State, r: State, f: Frame, i: nat, space: bool, slot: nat)
    requires Safe(c, s) && i < |s.egress| && (space ==> slot < |s.tx|) && s.egress[i] in s.egress
    requires !r.halted && ResolutionOk(c, s, f, r.(clock := s.clock))
    ensures Safe(c, Placed(c, s, r, f, i, space, slot))
  {
    RingStays(c, s.ring);
    PlaceQueues(c, s, r, f, i, space, slot);
    var s' := Placed(c, s, r, f, i, space, slot);
    assert EgressOk(c, s.heard, s.egress[i]);
    assert s'.written == s.written && s'.heard == r.heard && s'.arp == r.arp;
    forall x | x in s'.written ensures WrittenOk(c, s', x) {
      WrittenStays(c, s, s', x);
    }
    forall q | q in s'.requests ensures Asking(c, s'.heard, q.ip, q.iface) {
      StillAsking(c, s.heard, s'.heard, q.ip, q.iface);
    }
  }

  lemma TakeSafe(c: Config, s: State, w: nat, count: nat)
    requires Safe(c, s) && w < |s.batches| && count <= |s.ingress|
    ensures Safe(c, Taken(s, w, count))
  {
    var s' := Taken(s, w, count);
    forall v, f | 0 <= v < |s'.batches| && f in s'.batches[v] ensures Untouched(c, f) {
      if v == w {
        assert f in s.ingress;
      }
    }
    assert forall x :: x in s'.written ==> WrittenOk(c, s, x) && WrittenOk(c, s', x);
  }

  lemma ReceiveSafe(c: Config, s: State, slot: nat, iface: nat, len: nat, packet: Packet)
    requires Safe(c, s) && slot < |s.rx| && s.free != [] && iface < c.ifaces
    ensures Safe(c, Received(s, slot, iface, len, packet))
  {
    SmallTag(iface);
    var s' := Received(s, slot, iface, len, packet);
    assert forall x :: x in s'.written ==> WrittenOk(c, s, x) && WrittenOk(c, s', x);
  }

  lemma FlushSafe(c: Config, s: State, accepted: bool)
    requires Safe(c, s)
    ensures Safe(c, Flushed(s, accepted))
  {
    var s' := Flushed(s, accepted);
    assert forall x :: x in s'.written ==> WrittenOk(c, s, x) && WrittenOk(c, s', x);
  }

  lemma StepSafe(c: Config, s: State, step: Step)
    requires Safe(c, s) && Enabled(c, s, step)
    ensures Safe(c, Next(c, s, step))
  {
    match step
    case Receive(slot, iface, len, packet) => ReceiveSafe(c, s, slot, iface, len, packet);
    case Flush(accepted) => FlushSafe(c, s, accepted);
    case TakeBatch(w, count) => TakeSafe(c, s, w, count);
    case Work(w, accepted, host, index) => WorkSafe(c, s, w, accepted, host, index);
    case BeginRound =>
      assert forall x :: x in s.written ==> WrittenOk(c, s, x) && WrittenOk(c, s.(ring := 0), x);
    case Dispatch(i, space, slot, checked, recorded) => DispatchSafe(c, s, i, space, slot, checked, recorded);
  }

  /** Every state of every run is safe. */
  lemma {:induction false} RunSafe(c: Config, run: seq<State>, steps: seq<Step>, n: nat)
    requires IsRun(c, run, steps) && n < |run|
    ensures Safe(c, run[n])
  {
    if n == 0 {
      InitSafe(c, run[0]);
    } else {
      RunSafe(c, run, steps, n - 1);
      StepSafe(c, run[n - 1], steps[n - 1]);
    }
  }

  /** With an index of its own, each gateway has its place in the current table. */
  lemma FirstPlaces(known: map<Word, Arp.NextHop>, r: Arp.Routing, x: nat)
    requires Dense(r.mapping) && x < |r.mapping|
    ensures Arp.Slot(known, r, x, |r.mapping|) == Arp.Entry(known, r, x)
  {
    var k := Arp.LastWriter(r.mapping, x, |r.mapping|);
    assert r.mapping[x].index == x;
    assert k >= x;
  }

  lemma InitSafe(c: Config, s: State)
    requires ConfigOk(c) && Init(c, s)
    ensures Safe(c, s)
  {
    var r := Arp.Routing(c.mapping, c.netmap);
    forall x: nat | x < |c.mapping| ensures s.arp.current[x] == Arp.Entry(map[], r, x) {
      FirstPlaces(map[], r, x);
    }
    assert ArpOk(c, s.arp, s.heard);
  }

  /** Every destination MAC written in a run was taught before, on the interface the frame leaves
      by, by the gateway of the packet's longest match in the original routing information, or
      by the destination itself on a direct route. */
  lemma MacsAreTaught(c: Config, run: seq<State>, steps: seq<Step>, n: nat, w: Written)
    requires IsRun(c, run, steps) && n < |run| && w in run[n].written
    ensures w.heard <= |run[n].heard| && Justified(c, run[n].heard[..w.heard], w.dst, Arp.NextHop(w.mac, w.iface))
  {
    RunSafe(c, run, steps, n);
  }

  /** Every frame a run puts on the egress queue is in order, and the ring number is in range. */
  lemma EgressInOrder(c: Config, run: seq<State>, steps: seq<Step>, n: nat, f: Frame)
    requires IsRun(c, run, steps) && n < |run| && f in run[n].egress
    ensures EgressOk(c, run[n].heard, f) && RouterOrigin.Handed(run[n].received, f) && run[n].ring < c.workers
  {
    RouterOrigin.RunOrigins(c, run, steps, n);
    RunSafe(c, run, steps, n);
  }

  /** Everything a run hands to a transmit ring is an ARP packet that arrived and is not a request for
      others, a logged request, or a packet that arrived, one hop further, whose checksum balances and
      whose MAC address and interface were taught by the next hop of its longest match in the original
      routing information. */
  lemma SentInOrder(c: Config, run: seq<State>, steps: seq<Step>, n: nat, f: Frame)
    requires IsRun(c, run, steps) && n < |run| && f in run[n].sent
    ensures SentOk(c, run[n].heard, f) && RouterOrigin.SentFrom(c, run[n].received, run[n].requests, f)
  {
    RouterOrigin.RunOrigins(c, run, steps, n);
    RunSafe(c, run, steps, n);
  }

  /** A packet to this destination goes next to the gateway of its route, or straight to it. */
  function NextHopIp(h: Hop, dst: Word): Word {
    if h.gateway == ZERO then dst else h.gateway
  }

  /** What the manager makes of a frame without a MAC: a request for its destination, when one is
      due; without an address on the interface the program stops. */
  lemma AskedFor(c: Config, s: State, f: Frame, checked: real, recorded: real)
    requires f.packet.IPv4? && f.tag == Tag(f.tag.id, true, false, false, false) && f.tag.id < 0x1000 && !s.halted
    ensures var dst := DestIp(f.packet.header);
            var (g, r) := Resolved(c, s, f, checked, recorded);
            if !Due(s, dst, checked) then g == f.(tag := f.tag.(discard := true)) && r == s
            else if !HasAddress(c, f.tag.id) then r == s.(halted := true)
            else
              && g.packet == RequestFor(dst, f.tag.id) && g.tag.id == f.tag.id && !g.tag.discard && !r.halted
              && r.requests == s.requests + [Request(dst, f.tag.id, recorded)]
  {
    SmallTag(f.tag.id);
  }

  /** A frame without a MAC waits on the interface of its next hop. */
  lemma WaitsOn(c: Config, s: State, f: Frame, h: Hop)
    requires Safe(c, s) && f in s.egress && f.tag.noMac
    requires f.packet.IPv4? ==> Resolves(RibOf(c.original), DestIp(f.packet.header), h)
    ensures f.packet.IPv4? && f.tag == Tag(f.tag.id, true, false, false, false) && f.tag.id < c.ifaces
    ensures AskOn(c, s.heard, DestIp(f.packet.header), h, f.tag.id)
  {
    assert EgressOk(c, s.heard, f);
    var dst := DestIp(f.packet.header);
    var g :| Resolves(RibOf(c.original), dst, g) && AskOn(c, s.heard, dst, g, f.tag.id);
    OneAnswer(c, dst, g, h);
  }

  /** Over every run, a packet without a MAC calls for a request when none was made within half a
      second. Without an address on the interface of its next hop the program stops. Otherwise the
      request leaves on that interface, and asks for the next hop if and only if the packet is
      directly connected or addressed to its gateway: else the destination is asked for. */
  lemma RequestTarget(c: Config, run: seq<State>, steps: seq<Step>, n: nat, f: Frame, checked: real, recorded: real, h: Hop)
    requires IsRun(c, run, steps) && n < |run| && !run[n].halted && f in run[n].egress && f.tag.noMac
    requires f.packet.IPv4? ==> Resolves(RibOf(c.original), DestIp(f.packet.header), h)
    ensures f.packet.IPv4? && AskOn(c, run[n].heard, DestIp(f.packet.header), h, f.tag.id)
    ensures var dst := DestIp(f.packet.header);
            var due, own := !ArpPacing.Recent(run[n].requests, dst, checked), f.tag.id in c.ips && c.ips[f.tag.id] != [];
            var (g, r) := Resolved(c, run[n], f, checked, recorded);
            && (r.halted <==> due && !own) && (g.tag.discard <==> !due)
            && (due && own ==>
                  && g.packet.ArpPacket? && g.packet.body.op == 1 && g.packet.body.iface == g.tag.id == f.tag.id
                  && r.requests == run[n].requests + [Request(g.packet.body.targetIp, g.tag.id, recorded)]
                  && (g.packet.body.targetIp == NextHopIp(h, dst) <==> h.gateway == ZERO || h.gateway == dst))
  {
    RunSafe(c, run, steps, n);
    ArpPacing.RunPaced(c, run, steps, n);
    ArpPacing.DueExact(run[n], DestIp(f.packet.header), checked);
    WaitsOn(c, run[n], f, h);
    AskedFor(c, run[n], f, checked, recorded);
  }

  /** Over every run, every request went out on the interface of the next hop of packets to that
      address; on the very interface of their route, when no gateway is used on two. */
  lemma RequestInterface(c: Config, run: seq<State>, steps: seq<Step>, n: nat, q: Request, h: Hop)
    requires IsRun(c, run, steps) && n < |run| && q in run[n].requests && Resolves(RibOf(c.original), q.ip, h)
    ensures AskOn(c, run[n].heard, q.ip, h, q.iface)
    ensures OneInterface(c.original) && h.gateway != ZERO ==> h.iface in c.netmap && q.iface == c.netmap[h.iface]
  {
    RunSafe(c, run, steps, n);
    var g :| Resolves(RibOf(c.original), q.ip, g) && AskOn(c, run[n].heard, q.ip, g, q.iface);
    OneAnswer(c, q.ip, g, h);
    HopInTable(c, q.ip, h);
    if h.gateway != ZERO && OneInterface(c.original) {
      OnRouteInterface(c, h, q.iface);
    }
  }

  lemma OnRouteInterface(c: Config, h: Hop, number: nat)
    requires OneInterface(c.original) && h in HopsOf(c.original) && h.gateway != ZERO && OnInterface(c, h.gateway, number)
    ensures h.iface in c.netmap && number == c.netmap[h.iface]
  {
  }

  /** Over every run, a packet behind a gateway leaves by an interface the gateway is used on, which
      is that of its route when no gateway is used on two; a directly connected one leaves by the
      interface its destination was first heard on, whatever the route says. */
  lemma LeavesBy(c: Config, run: seq<State>, steps: seq<Step>, n: nat, w: Written, h: Hop)
    requires IsRun(c, run, steps) && n < |run| && w in run[n].written && Resolves(RibOf(c.original), w.dst, h)
    ensures w.heard <= |run[n].heard| && Vouched(c, run[n].heard[..w.heard], w.dst, h, Arp.NextHop(w.mac, w.iface))
    ensures h.gateway != ZERO && OneInterface(c.original) ==> h.iface in c.netmap && w.iface == c.netmap[h.iface]
  {
    RunSafe(c, run, steps, n);
    WrittenVouched(c, run[n], w, h);
    HopInTable(c, w.dst, h);
    if h.gateway != ZERO && OneInterface(c.original) {
      OnRouteInterface(c, h, w.iface);
    }
  }

  lemma WrittenVouched(c: Config, s: State, w: Written, h: Hop)
    requires ConfigOk(c) && WrittenOk(c, s, w) && Resolves(RibOf(c.original), w.dst, h)
    ensures Vouched(c, s.heard[..w.heard], w.dst, h, Arp.NextHop(w.mac, w.iface))
  {
    var g :| Resolves(RibOf(c.original), w.dst, g) && Vouched(c, s.heard[..w.heard], w.dst, g, Arp.NextHop(w.mac, w.iface));
    OneAnswer(c, w.dst, g, h);
  }

  lemma RingInRange(c: Config, s: State, f: Frame, checked: real, recorded: real)
    requires Safe(c, s) && f in s.egress
    ensures var (g, _) := Resolved(c, s, f, checked, recorded);
            !g.tag.discard ==> g.tag.id < c.ifaces && NextRing(c, s.ring, f.tag.host) < c.workers
  {
    assert EgressOk(c, s.heard, f);
    ResolvedOk(c, s, f, checked, recorded);
  }

  lemma SlotBound(ifaces: nat, workers: nat, iface: nat, ring: nat, slot: nat)
    requires iface < ifaces && ring < workers && slot / TX_SLOTS == iface * (workers + 1) + ring
    ensures slot < ifaces * (workers + 1) * TX_SLOTS
  {
    var q := iface * (workers + 1) + ring;
    assert (iface + 1) * (workers + 1) <= ifaces * (workers + 1);
    assert (iface + 1) * (workers + 1) == iface * (workers + 1) + workers + 1;
    assert q + 1 <= ifaces * (workers + 1);
    assert slot < (q + 1) * TX_SLOTS;
    assert (q + 1) * TX_SLOTS <= ifaces * (workers + 1) * TX_SLOTS;
  }
}
