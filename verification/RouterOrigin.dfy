/** Where the packets in a running router come from: every frame holds a packet that arrived, in the
    buffer it arrived in, changed by one hop at most (src/manager.cpp, src/worker.cpp). */
module RouterOrigin {
  import opened Words
  import opened Checksum
  import opened Router
  import Arp

  /** The frame holds a packet just as it arrived, and no flags. */
  ghost predicate AsReceived(received: seq<Arrived>, f: Frame) {
    && f.from < |received|
    && var a := received[f.from];
       && f.buf == a.buf && f.len == a.len && f.packet == a.packet && f.tag == Tag(a.iface, false, false, false, false)
       && a.iface < 0x1000
  }

  /** An IPv4 packet of the egress queue arrived with an acceptable header, and is one hop further; an
      ARP packet is as it arrived; anything else is to be discarded. */
  ghost predicate Handed(received: seq<Arrived>, f: Frame) {
    && f.from < |received| && f.tag.id < 0x1000
    && var a := received[f.from];
       && f.buf == a.buf && f.len == a.len
       && match a.packet
          case IPv4(dMac, h) =>
            f.packet.IPv4? && Acceptable(h, a.len) && Hopped(h, f.packet.header)
          case ArpPacket(_, _) => f.packet == a.packet && f.tag == Tag(a.iface, false, true, false, false)
          case Other => f.packet == a.packet && f.tag == Tag(0, false, false, false, true)
  }

  /** A request for an address that is not on the interface it came in on. */
  ghost predicate Foreign(c: Config, body: Arp.ArpFrame, iface: nat) {
    body.op == 1 && !(iface in c.ips && body.targetIp in c.ips[iface])
  }

  function AtLeast60(len: nat): nat {
    if len < 60 then 60 else len
  }

  /** The broadcast request that a logged request is sent as. */
  ghost predicate Asks(f: Frame, q: Request) {
    && f.packet == ArpPacket(0xffff_ffff_ffff, Arp.ArpFrame(1, ZERO, 0, q.ip, q.iface))
    && f.tag.id == q.iface && f.len == 60
  }

  /** What was sent is an ARP packet as it arrived that was not a request for others, an acceptable IPv4
      packet one hop further, or a logged request for the destination of such a packet. */
  ghost predicate SentFrom(c: Config, received: seq<Arrived>, requests: seq<Request>, f: Frame) {
    && f.from < |received|
    && var a := received[f.from];
       && f.buf == a.buf
       && match a.packet
          case IPv4(_, h) =>
            && Acceptable(h, a.len)
            && if f.packet.IPv4? then Hopped(h, f.packet.header) && f.len == AtLeast60(a.len)
               else exists q :: q in requests && q.ip == DestIp(h) && Asks(f, q)
          case ArpPacket(_, body) =>
            f.packet == a.packet && f.tag.id == a.iface && f.len == AtLeast60(a.len) && !Foreign(c, body, a.iface)
          case Other => false
  }

  ghost predicate Origins(c: Config, s: State) {
    && (forall f :: f in s.pending ==> AsReceived(s.received, f))
    && (forall f :: f in s.ingress ==> AsReceived(s.received, f))
    && (forall w, f :: 0 <= w < |s.batches| && f in s.batches[w] ==> AsReceived(s.received, f))
    && (forall f :: f in s.egress ==> Handed(s.received, f))
    && (forall f :: f in s.sent ==> SentFrom(c, s.received, s.requests, f))
  }

  /** More arrivals and more requests change nothing about a frame. */
  lemma StillFrom(c: Config, received: seq<Arrived>, more: seq<Arrived>, requests: seq<Request>, others: seq<Request>, f: Frame)
    requires received <= more && requests <= others
    ensures AsReceived(received, f) ==> AsReceived(more, f)
    ensures Handed(received, f) ==> Handed(more, f)
    ensures SentFrom(c, received, requests, f) ==> SentFrom(c, more, others, f)
  {
    if SentFrom(c, received, requests, f) && received[f.from].packet.IPv4? && !f.packet.IPv4? {
      var q :| q in requests && q.ip == DestIp(received[f.from].packet.header) && Asks(f, q);
      assert q in others;
    }
  }

  lemma OriginsStay(c: Config, s: State, s': State)
    requires Origins(c, s) && s.received <= s'.received && s.requests <= s'.requests
    requires s'.ingress == s.ingress && s'.batches == s.batches && s'.egress == s.egress && s'.sent == s.sent
    requires forall f :: f in s'.pending ==> f in s.pending || AsReceived(s'.received, f)
    ensures Origins(c, s')
  {
    forall f ensures (AsReceived(s.received, f) ==> AsReceived(s'.received, f)) && (Handed(s.received, f) ==> Handed(s'.received, f))
                     && (SentFrom(c, s.received, s.requests, f) ==> SentFrom(c, s'.received, s'.requests, f))
    {
      StillFrom(c, s.received, s'.received, s.requests, s'.requests, f);
    }
  }

  lemma ReceiveOrigins(c: Config, s: State, slot: nat, iface: nat, len: nat, packet: Packet)
    requires Origins(c, s) && slot < |s.rx| && s.free != [] && iface < 0x1000
    ensures Origins(c, Received(s, slot, iface, len, packet))
  {
    SmallTagHere(iface);
    OriginsStay(c, s, Received(s, slot, iface, len, packet));
  }

  lemma SmallTagHere(n: nat)
    requires n < 0x1000
    ensures TagOf(n) == Tag(n, false, false, false, false)
    ensures TagOf(0x8000) == Tag(0, false, false, false, true)
  {
  }

  lemma ForwardedHanded(s: State, received: seq<Arrived>, f: Frame, index: nat)
    requires AsReceived(received, f) && f.packet.IPv4? && Verified(f.packet.header, f.len)
    ensures Handed(received, Forwarding(s, f, f.packet.dMac, Forwarded(f.packet.header), index).frame)
  {
    var h := f.packet.header;
    VerifiedExact(h, f.len);
    HoppedExact(h, Forwarded(h));
    var nh := NextHopFor(s, DestIp(Forwarded(h)), index);
    assert TagOf(nh.iface).id < 0x1000;
  }

  /** What a worker offers. */
  lemma ProcessedHanded(s: State, received: seq<Arrived>, f: Frame, host: bool, index: nat)
    requires AsReceived(received, f) && f.tag.id < 0x1000
    ensures var o := Processed(s, f, host, index); o.offered ==> Handed(received, o.frame)
  {
    SmallTagHere(0);
    if f.packet.IPv4? && Verified(f.packet.header, f.len) && !host {
      ForwardedHanded(s, received, f, index);
    }
  }

  lemma WorkOrigins(c: Config, s: State, w: nat, accepted: bool, host: bool, index: nat)
    requires Origins(c, s) && w < |s.batches| && s.batches[w] != []
    ensures Origins(c, Worked(s, w, accepted, host, index))
  {
    var f := s.batches[w][0];
    assert f in s.batches[w];
    ProcessedHanded(s, s.received, f, host, index);
    var s' := Worked(s, w, accepted, host, index);
    forall v, g | 0 <= v < |s'.batches| && g in s'.batches[v] ensures AsReceived(s.received, g) {
      assert v == w ==> g in s.batches[w];
    }
  }

  lemma HoppedDest(h: Header, g: Header)
    requires Hopped(h, g)
    ensures DestIp(g) == DestIp(h)
  {
  }

  /** What the manager sends of an egress frame. */
  lemma ResolvedFrom(c: Config, s: State, f: Frame, checked: real, recorded: real)
    requires Handed(s.received, f)
    ensures var (g, r) := Resolved(c, s, f, checked, recorded);
            && r.received == s.received && s.requests <= r.requests
            && (!g.tag.discard && !r.halted ==> SentFrom(c, r.received, r.requests, Padded(g)))
  {
    SmallTagHere(0);
    if f.packet.IPv4? {
      AskedFrom(c, s, f, checked, recorded);
    } else if f.packet.ArpPacket? {
      HeardFrom(c, s, f, checked, recorded);
    }
  }

  lemma AskedFrom(c: Config, s: State, f: Frame, checked: real, recorded: real)
    requires Handed(s.received, f) && f.packet.IPv4?
    ensures var (g, r) := Resolved(c, s, f, checked, recorded);
            && r.received == s.received && s.requests <= r.requests
            && (!g.tag.discard && !r.halted ==> SentFrom(c, r.received, r.requests, Padded(g)))
  {
    var (g, r) := Resolved(c, s, f, checked, recorded);
    HoppedDest(s.received[f.from].packet.header, f.packet.header);
    SmallTagHere(f.tag.id);
    if !g.packet.IPv4? {
      var q := Request(DestIp(f.packet.header), f.tag.id, recorded);
      assert r.requests == s.requests + [q] && q in r.requests && Asks(Padded(g), q);
    }
  }

  lemma HeardFrom(c: Config, s: State, f: Frame, checked: real, recorded: real)
    requires Handed(s.received, f) && f.packet.ArpPacket?
    ensures var (g, r) := Resolved(c, s, f, checked, recorded);
            && r.received == s.received && r.requests == s.requests
            && (!g.tag.discard ==> SentFrom(c, r.received, r.requests, Padded(g)))
  {
    SmallTagHere(0);
    var body := f.packet.body.(iface := f.tag.id);
    assert body.op == Arp.OP_REQUEST && !Arp.Teaches(body, c.ips) <==> Foreign(c, f.packet.body, f.tag.id);
  }

  lemma PlaceOrigins(c: Config, s: State, r: State, g: Frame, i: nat, space: bool, slot: nat)
    requires Origins(c, s) && i < |s.egress| && (space ==> slot < |s.tx|)
    requires r.received == s.received && s.requests <= r.requests && r.sent == s.sent
    requires r.pending == s.pending && r.ingress == s.ingress && r.batches == s.batches
    requires !g.tag.discard ==> SentFrom(c, r.received, r.requests, Padded(g))
    ensures Origins(c, Placed(c, s, r, g, i, space, slot))
  {
    var s' := Placed(c, s, r, g, i, space, slot);
    forall x | x in s'.sent ensures SentFrom(c, s'.received, s'.requests, x) {
      if x in s.sent {
        StillFrom(c, s.received, s'.received, s.requests, s'.requests, x);
      }
    }
    assert forall x :: x in s'.egress ==> x in s.egress;
  }

  lemma ResolvedKeepsQueues(c: Config, s: State, f: Frame, checked: real, recorded: real)
    ensures var r := Resolved(c, s, f, checked, recorded).1;
            r.sent == s.sent && r.pending == s.pending && r.ingress == s.ingress && r.batches == s.batches
  {
  }

  lemma DispatchOrigins(c: Config, s: State, i: nat, space: bool, slot: nat, checked: real, recorded: real)
    requires Origins(c, s) && i < |s.egress| && (space ==> slot < |s.tx|)
    ensures Origins(c, Dispatched(c, s, i, space, slot, checked, recorded))
  {
    assert s.egress[i] in s.egress;
    ResolvedFrom(c, s, s.egress[i], checked, recorded);
    ResolvedKeepsQueues(c, s, s.egress[i], checked, recorded);
    var (g, r) := Resolved(c, s, s.egress[i], checked, recorded);
    if !r.halted {
      PlaceOrigins(c, s, r.(clock := recorded), g, i, space, slot);
    }
  }

  lemma StepOrigins(c: Config, s: State, step: Step)
    requires Origins(c, s) && Enabled(c, s, step) && c.ifaces <= 0x1000
    ensures Origins(c, Next(c, s, step))
  {
    match step
    case Receive(slot, iface, len, packet) => ReceiveOrigins(c, s, slot, iface, len, packet);
    case Flush(accepted) =>
    case TakeBatch(w, count) => TakeOrigins(c, s, w, count);
    case Work(w, accepted, host, index) => WorkOrigins(c, s, w, accepted, host, index);
    case BeginRound =>
    case Dispatch(i, space, slot, checked, recorded) => DispatchOrigins(c, s, i, space, slot, checked, recorded);
  }

  lemma TakeOrigins(c: Config, s: State, w: nat, count: nat)
    requires Origins(c, s) && w < |s.batches| && count <= |s.ingress|
    ensures Origins(c, Taken(s, w, count))
  {
    var s' := Taken(s, w, count);
    forall v, f | 0 <= v < |s'.batches| && f in s'.batches[v] ensures AsReceived(s.received, f) {
      assert v == w ==> f in s.ingress;
    }
  }

  /** In every state of every run. */
  lemma {:induction false} RunOrigins(c: Config, run: seq<State>, steps: seq<Step>, n: nat)
    requires IsRun(c, run, steps) && n < |run|
    ensures Origins(c, run[n])
  {
    if n > 0 {
      RunOrigins(c, run, steps, n - 1);
      StepTo(c, run, steps, n);
      StepOrigins(c, run[n - 1], steps[n - 1]);
    }
  }
}
