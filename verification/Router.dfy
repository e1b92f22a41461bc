/** The running router as a state machine: the manager moves netmap buffers between ring slots,
    queues and its free list, workers classify and forward frames (src/manager.cpp,
    src/worker.cpp). Each step is atomic; a run interleaves them in any order. */
module Router {
  import opened Words
  import opened Rib
  import opened Routes
  import opened Numbering
  import opened Reading
  import opened EndToEnd
  import opened Checksum
  import Arp

  type Buf = nat

  const MANAGER_BULK := 512
  const WORKER_BULK := 512
  const TX_SLOTS := 2048

  /** Ethernet header and ARP packet, and the shortest frame that is sent. */
  const REQUEST_LENGTH := 42
  const MIN_LENGTH := 60

  /** The interface field of a frame: an interface number and four flags. */
  datatype Tag = Tag(id: nat, noMac: bool, arp: bool, host: bool, discard: bool)

  /** The 16-bit interface field with this value. */
  function TagOf(n: nat): Tag {
    Tag(n % 0x1000, n / 0x1000 % 2 == 1, n / 0x2000 % 2 == 1, n / 0x4000 % 2 == 1, n / 0x8000 % 2 == 1)
  }

  datatype Packet =
    | IPv4(dMac: Arp.Mac, header: Header)
    | ArpPacket(dMac: Arp.Mac, body: Arp.ArpFrame)
    | Other

  /** A packet as it came in: in which buffer, on which interface, how long. */
  datatype Arrived = Arrived(buf: Buf, iface: nat, len: nat, packet: Packet)

  /** A frame in the router, and the place of its packet in the log of arrivals. */
  datatype Frame = Frame(buf: Buf, len: nat, tag: Tag, packet: Packet, from: nat)

  /** What does not change during a run. `original` is the routing information before update. */
  datatype Config = Config(workers: nat, ifaces: nat, original: Table, table: Table,
                           mapping: Mapping, netmap: Netmap, ips: Arp.LocalIps)

  /** A destination MAC written by a worker, the interface the frame leaves on, and how many ARP
      frames had been handled by then. */
  datatype Written = Written(dst: Word, mac: Arp.Mac, iface: nat, heard: nat)

  /** A request the manager prepared: whom it asks for, on which interface, and when. */
  datatype Request = Request(ip: Word, iface: nat, time: real)

  /** Buffers in their places, the tables, and a log of what was received, heard, written and sent, and
      of how many frames the manager has kept in the current round. */
  datatype State = State(
    free: seq<Buf>, rx: seq<Buf>, tx: seq<Buf>,
    pending: seq<Frame>, ingress: seq<Frame>, batches: seq<seq<Frame>>, egress: seq<Frame>,
    lost: seq<Buf>, ring: nat, halted: bool,
    arp: Arp.State, heard: seq<Arp.ArpFrame>, written: seq<Written>, sent: seq<Frame>,
    missing: map<Word, real>, requests: seq<Request>, clock: real, received: seq<Arrived>, kept: nat)

  datatype Step =
    | Receive(slot: nat, iface: nat, len: nat, packet: Packet)
    | Flush(accepted: bool)
    | TakeBatch(worker: nat, count: nat)
    | Work(worker: nat, accepted: bool, host: bool, index: nat)
    | BeginRound
    | Dispatch(position: nat, space: bool, slot: nat, checked: real, recorded: real)

  /** Destination address of a header, in host order. */
  function DestIp(h: Header): Word {
    FromValue(h[16], 8) + FromValue(h[17], 8) + FromValue(h[18], 8) + FromValue(h[19], 8)
  }

  lemma ByteWidths()
    ensures Pow2(8) == 0x100 && Pow2(16) == 0x10000
  {
    assert Pow2(4) == 16;
    assert Pow2(8) == 256;
    assert Pow2(12) == 4096;
  }

  lemma ValueOfBytes(hi: byte, lo: byte)
    ensures Value(FromValue(hi, 8) + FromValue(lo, 8)) == Net16(hi, lo)
  {
    ByteWidths();
    ValueConcat(FromValue(hi, 8), FromValue(lo, 8));
    ValueOf(hi, 8);
    ValueOf(lo, 8);
  }

  /** The destination is the number in network order in bytes 16 to 19. */
  lemma DestIpValue(h: Header)
    ensures Value(DestIp(h)) == Net16(h[16], h[17]) * 0x10000 + Net16(h[18], h[19])
  {
    var x, y := FromValue(h[16], 8) + FromValue(h[17], 8), FromValue(h[18], 8) + FromValue(h[19], 8);
    assert DestIp(h) == x + y;
    ByteWidths();
    ValueConcat(x, y);
    ValueOfBytes(h[16], h[17]);
    ValueOfBytes(h[18], h[19]);
  }

  function Remove<T>(s: seq<T>, i: nat): seq<T>
    requires i < |s|
  {
    s[..i] + s[i + 1..]
  }

  /** Next hop for a valid index: the gateway's entry, the neighbour's entry, or a hop without
      a MAC address on the interface the index names. */
  function NextHopFor(s: State, dst: Word, index: nat): Arp.NextHop {
    if index < NH_DIRECTLY_CONNECTED then
      if index < |s.arp.current| then s.arp.current[index] else Arp.NextHop(0, 0xffff)
    else if dst in s.arp.direct then s.arp.direct[dst]
    else Arp.NextHop(0, index - NH_DIRECTLY_CONNECTED)
  }

  /** What a worker makes of a frame: the frame as left in the buffer, whether it is offered to
      the egress queue, whether the program aborts, and the MAC address it wrote. */
  datatype Outcome = Outcome(frame: Frame, offered: bool, halt: bool, written: seq<Written>)

  function Processed(s: State, f: Frame, host: bool, index: nat): Outcome {
    match f.packet
    case IPv4(dMac, h) =>
      if !Verified(h, f.len) then Outcome(f.(tag := TagOf(0x8000)), false, false, [])
      else if host then Outcome(f.(tag := f.tag.(host := true)), false, false, [])
      else Forwarding(s, f, dMac, Forwarded(h), index)
    case ArpPacket(_, _) => Outcome(f.(tag := f.tag.(arp := true)), true, false, [])
    case Other => Outcome(f.(tag := TagOf(0x8000)), true, false, [])
  }

  function Forwarding(s: State, f: Frame, dMac: Arp.Mac, h: Header, index: nat): Outcome {
    var dst := DestIp(h);
    var nh := NextHopFor(s, dst, index);
    if index == NH_INVALID then Outcome(f.(packet := IPv4(dMac, h)), false, true, [])
    else if !Arp.Usable(nh) then
      Outcome(f.(packet := IPv4(dMac, h), tag := TagOf(nh.iface).(noMac := true)), true, nh.iface == 0xffff, [])
    else
      Outcome(f.(packet := IPv4(nh.mac, h), tag := TagOf(nh.iface)), true, false, [Written(dst, nh.mac, nh.iface, |s.heard|)])
  }

  /** The broadcast request the manager writes over a frame without a known MAC. */
  function RequestFor(ip: Word, iface: nat): Packet {
    ArpPacket(0xffff_ffff_ffff, Arp.ArpFrame(Arp.OP_REQUEST, ZERO, 0, ip, iface))
  }

  /** Without an address on the interface a request cannot be written, and the program stops. */
  predicate HasAddress(c: Config, iface: nat) {
    iface in c.ips && c.ips[iface] != []
  }

  /** No request for the address was made within the last half second. */
  predicate Due(s: State, ip: Word, checked: real) {
    ip in s.missing ==> checked - s.missing[ip] >= 0.5
  }

  /** A frame taken from the egress queue after the flag checks, with the tables it changed. */
  function Resolved(c: Config, s: State, f: Frame, checked: real, recorded: real): (Frame, State) {
    if f.tag.host then (f, s)
    else if f.tag.arp then
      if f.packet.ArpPacket? then
        var body := f.packet.body.(iface := f.tag.id);
        var s' := s.(arp := Arp.AfterFrame(s.arp, body, c.ips), heard := s.heard + [body]);
        if body.op == Arp.OP_REQUEST && !Arp.Teaches(body, c.ips) then (f.(tag := TagOf(0x8000)), s') else (f, s')
      else (f, s)
    else if f.tag.noMac && f.packet.IPv4? then
      var ip := DestIp(f.packet.header);
      if Due(s, ip, checked) && !HasAddress(c, f.tag.id) then (f, s.(halted := true))
      else if ip !in s.missing then
        (f.(tag := TagOf(f.tag.id), packet := RequestFor(ip, f.tag.id), len := REQUEST_LENGTH), Asked(s, ip, f.tag.id, recorded))
      else if checked - s.missing[ip] < 0.5 then (f.(tag := f.tag.(discard := true)), s)
      else (f.(packet := RequestFor(ip, f.tag.id), len := REQUEST_LENGTH), Asked(s, ip, f.tag.id, recorded))
    else (f, s)
  }

  function Asked(s: State, ip: Word, iface: nat, time: real): State {
    s.(missing := s.missing[ip := time], requests := s.requests + [Request(ip, iface, time)])
  }

  /** The ring for the next frame: rotated, from the host ring when the frame is for the host. */
  function NextRing(c: Config, ring: nat, host: bool): nat {
    var r := if host then c.workers else ring;
    if r + 1 == c.workers then 0 else r + 1
  }

  /** Whether a slot belongs to a transmit ring; interfaces have one ring more than workers. */
  predicate InRing(c: Config, slot: nat, iface: nat, ring: nat) {
    slot / TX_SLOTS == iface * (c.workers + 1) + ring
  }

  ghost predicate Enabled(c: Config, s: State, step: Step) {
    && !s.halted && CanonicalTable(c.table)
    && match step
       case Receive(slot, iface, _, _) =>
         slot < |s.rx| && iface < c.ifaces && s.free != [] && |s.pending| < MANAGER_BULK
       case Flush(_) => true
       case TakeBatch(w, count) =>
         w < |s.batches| && s.batches[w] == [] && count <= |s.ingress| && count <= WORKER_BULK
       case Work(w, _, _, index) =>
         && w < |s.batches| && s.batches[w] != []
         && (s.batches[w][0].packet.IPv4? ==> IsRead(c.table, DestIp(s.batches[w][0].packet.header), index))
       case BeginRound => true
       case Dispatch(i, space, slot, checked, recorded) =>
         && i < |s.egress| && s.clock <= checked <= recorded
         && var (f, _) := Resolved(c, s, s.egress[i], checked, recorded);
            space ==> slot < |s.tx| && InRing(c, slot, f.tag.id, NextRing(c, s.ring, s.egress[i].tag.host))
  }

  /** One slot of a receive ring: its buffer goes into a frame, a free buffer takes its place. */
  function Received(s: State, slot: nat, iface: nat, len: nat, packet: Packet): State
    requires slot < |s.rx| && s.free != []
  {
    var last := |s.free| - 1;
    s.(free := s.free[..last], rx := s.rx[slot := s.free[last]],
       pending := s.pending + [Frame(s.rx[slot], len, TagOf(iface), packet, |s.received|)],
       received := s.received + [Arrived(s.rx[slot], iface, len, packet)])
  }

  function BufsOf(fs: seq<Frame>): (b: seq<Buf>)
    ensures |b| == |fs|
  {
    seq(|fs|, i requires 0 <= i < |fs| => fs[i].buf)
  }

  /** The bulk enqueue takes all frames or refuses all. */
  function Flushed(s: State, accepted: bool): State {
    if accepted then s.(pending := [], ingress := s.ingress + s.pending)
    else s.(pending := [], lost := s.lost + BufsOf(s.pending))
  }

  function Taken(s: State, w: nat, count: nat): State
    requires w < |s.batches| && count <= |s.ingress|
  {
    s.(ingress := s.ingress[count..], batches := s.batches[w := s.ingress[..count]])
  }

  function Worked(s: State, w: nat, accepted: bool, host: bool, index: nat): State
    requires w < |s.batches| && s.batches[w] != []
  {
    var o := Processed(s, s.batches[w][0], host, index);
    var s' := s.(batches := s.batches[w := s.batches[w][1..]], written := s.written + o.written, halted := o.halt);
    if o.offered && accepted then s'.(egress := s.egress + [o.frame])
    else s'.(lost := s.lost + [o.frame.buf])
  }

  /** Short frames are sent with the minimum length. */
  function Padded(f: Frame): Frame {
    f.(len := if f.len < MIN_LENGTH then MIN_LENGTH else f.len)
  }

  /** The frame, as resolved, leaves the egress queue: its buffer is reclaimed, or goes into a
      transmit slot in exchange for the buffer there. */
  function Placed(c: Config, s: State, r: State, f: Frame, i: nat, space: bool, slot: nat): State
    requires i < |s.egress| && (space ==> slot < |s.tx|)
  {
    var s' := r.(egress := Remove(s.egress, i));
    if f.tag.discard then s'.(free := s.free + [f.buf])
    else
      var s'' := s'.(ring := NextRing(c, s.ring, s.egress[i].tag.host), kept := s.kept + 1);
      if space then s''.(free := s.free + [s.tx[slot]], tx := s.tx[slot := f.buf], sent := s.sent + [Padded(f)])
      else s''.(free := s.free + [f.buf])
  }

  function Dispatched(c: Config, s: State, i: nat, space: bool, slot: nat, checked: real, recorded: real): State
    requires i < |s.egress| && (space ==> slot < |s.tx|)
  {
    var (f, r) := Resolved(c, s, s.egress[i], checked, recorded);
    if r.halted then s.(halted := true) else Placed(c, s, r.(clock := recorded), f, i, space, slot)
  }

  ghost function Next(c: Config, s: State, step: Step): State
    requires Enabled(c, s, step)
  {
    match step
    case Receive(slot, iface, len, packet) => Received(s, slot, iface, len, packet)
    case Flush(accepted) => Flushed(s, accepted)
    case TakeBatch(w, count) => Taken(s, w, count)
    case Work(w, accepted, host, index) => Worked(s, w, accepted, host, index)
    case BeginRound => s.(ring := 0, kept := 0)
    case Dispatch(i, space, slot, checked, recorded) => Dispatched(c, s, i, space, slot, checked, recorded)
  }

  /** At most 0x1000 interfaces, all of them known to the system, a worker, an updated table, and
      every gateway and directly connected interface on netmap. */
  ghost predicate ConfigOk(c: Config) {
    && 0 < c.workers && c.ifaces <= 0x1000 && (forall i: nat :: i < c.ifaces ==> i in c.ips)
    && Updated(c.original, c.table, c.mapping, c.netmap)
    && (forall e :: e in c.mapping ==> e.iface in c.netmap && c.netmap[e.iface] < c.ifaces)
    && (forall h :: h in HopsOf(c.original) && h.gateway == ZERO ==> h.iface in c.netmap && c.netmap[h.iface] < c.ifaces)
  }

  /** The state before the first step: buffers in the rings and on the free list only. */
  ghost predicate Init(c: Config, s: State) {
    && s.pending == [] && s.ingress == [] && s.egress == [] && s.lost == []
    && s.batches == seq(c.workers, _ => []) && s.ring == 0 && !s.halted
    && s.arp == Arp.Rebuilt(Arp.Empty(), Arp.Routing(c.mapping, c.netmap))
    && s.heard == [] && s.written == [] && s.sent == [] && s.missing == map[] && s.requests == []
    && s.received == [] && s.kept == 0
    && |s.tx| == c.ifaces * (c.workers + 1) * TX_SLOTS
  }

  /** States and steps of a run from an initial state. */
  ghost predicate IsRun(c: Config, run: seq<State>, steps: seq<Step>) {
    && ConfigOk(c) && |run| == |steps| + 1 && Init(c, run[0])
    && forall i :: 0 <= i < |steps| ==> Enabled(c, run[i], steps[i]) && run[i + 1] == Next(c, run[i], steps[i])
  }

  /** The step that leads to state `n` of a run. */
  lemma StepTo(c: Config, run: seq<State>, steps: seq<Step>, n: nat)
    requires IsRun(c, run, steps) && 0 < n < |run|
    ensures Enabled(c, run[n - 1], steps[n - 1]) && run[n] == Next(c, run[n - 1], steps[n - 1])
  {
  }

  predicate Stops(c: Config, s: State, f: Frame, checked: real) {
    && !f.tag.host && !f.tag.arp && f.tag.noMac && f.packet.IPv4?
    && Due(s, DestIp(f.packet.header), checked) && !HasAddress(c, f.tag.id)
  }

  /** A dispatch takes one frame off the egress queue, unless the program stops because the frame
      calls for a request on an interface without an address. */
  lemma DispatchedOne(c: Config, s: State, i: nat, space: bool, slot: nat, checked: real, recorded: real)
    requires i < |s.egress| && (space ==> slot < |s.tx|)
    ensures var s' := Dispatched(c, s, i, space, slot, checked, recorded);
            && (s'.halted <==> s.halted || Stops(c, s, s.egress[i], checked))
            && (s'.halted ==> s' == s.(halted := true))
            && (!s'.halted ==> s'.egress == Remove(s.egress, i) && s'.clock == recorded)
  {
  }
}
