/** Conservation of netmap buffers over every run of the router. */
module RouterBuffers {
  import opened Router
  import opened Checksum
  import opened Routes

  /** How often a buffer occurs in a sequence, in frames, in all worker batches. */
  function Times(s: seq<Buf>, b: Buf): nat {
    multiset(s)[b]
  }

  function Held(fs: seq<Frame>, b: Buf): nat {
    Times(BufsOf(fs), b)
  }

  function HeldByAll(bs: seq<seq<Frame>>, b: Buf): nat {
    if bs == [] then 0 else HeldByAll(bs[..|bs| - 1], b) + Held(bs[|bs| - 1], b)
  }

  function CountAll(bs: seq<seq<Frame>>): nat {
    if bs == [] then 0 else CountAll(bs[..|bs| - 1]) + |bs[|bs| - 1]|
  }

  /** Places a buffer can be in. */
  datatype Place = Free | RxSlot | TxSlot | Pending | Ingress | Batch | Egress | Lost

  /** How often a buffer occurs in a place. */
  function At(s: State, p: Place, b: Buf): nat {
    match p
    case Free => Times(s.free, b)
    case RxSlot => Times(s.rx, b)
    case TxSlot => Times(s.tx, b)
    case Pending => Held(s.pending, b)
    case Ingress => Held(s.ingress, b)
    case Batch => HeldByAll(s.batches, b)
    case Egress => Held(s.egress, b)
    case Lost => Times(s.lost, b)
  }

  function Everywhere(s: State, b: Buf): nat {
    At(s, Free, b) + At(s, RxSlot, b) + At(s, TxSlot, b) + At(s, Pending, b)
    + At(s, Ingress, b) + At(s, Batch, b) + At(s, Egress, b) + At(s, Lost, b)
  }

  /** Buffers outside the ring slots, by count. */
  function Circulating(s: State): nat {
    |s.free| + |s.pending| + |s.ingress| + CountAll(s.batches) + |s.egress| + |s.lost|
  }

  ghost predicate Conserved(s: State, s': State, b: Buf) {
    && Everywhere(s', b) == Everywhere(s, b) && Circulating(s') == Circulating(s)
    && |s'.rx| == |s.rx| && |s'.tx| == |s.tx|
  }

  lemma TimesConcat(x: seq<Buf>, y: seq<Buf>, b: Buf)
    ensures Times(x + y, b) == Times(x, b) + Times(y, b)
  {
  }

  lemma HeldConcat(x: seq<Frame>, y: seq<Frame>, b: Buf)
    ensures Held(x + y, b) == Held(x, b) + Held(y, b)
  {
    assert BufsOf(x + y) == BufsOf(x) + BufsOf(y);
  }

  lemma HeldOne(f: Frame, b: Buf)
    ensures Held([f], b) == Times([f.buf], b)
  {
  }

  lemma HeldRemove(fs: seq<Frame>, i: nat, b: Buf)
    requires i < |fs|
    ensures Held(fs, b) == Held(Remove(fs, i), b) + Times([fs[i].buf], b)
  {
    assert fs == fs[..i] + [fs[i]] + fs[i + 1..];
    HeldConcat(fs[..i] + [fs[i]], fs[i + 1..], b);
    HeldConcat(fs[..i], [fs[i]], b);
    HeldConcat(fs[..i], fs[i + 1..], b);
    HeldOne(fs[i], b);
  }

  lemma {:induction false} BatchUpdate(bs: seq<seq<Frame>>, w: nat, x: seq<Frame>, b: Buf)
    requires w < |bs|
    ensures HeldByAll(bs[w := x], b) + Held(bs[w], b) == HeldByAll(bs, b) + Held(x, b)
    ensures CountAll(bs[w := x]) + |bs[w]| == CountAll(bs) + |x|
  {
    var n := |bs| - 1;
    if w == n {
      assert bs[w := x][..n] == bs[..n];
    } else {
      BatchUpdate(bs[..n], w, x, b);
      assert bs[w := x][..n] == bs[..n][w := x];
    }
  }

  lemma SlotUpdate(slots: seq<Buf>, i: nat, x: Buf, b: Buf)
    requires i < |slots|
    ensures Times(slots[i := x], b) + Times([slots[i]], b) == Times(slots, b) + Times([x], b)
  {
  }

  lemma ReceiveConserves(s: State, slot: nat, iface: nat, len: nat, packet: Packet, b: Buf)
    requires slot < |s.rx| && s.free != []
    ensures Conserved(s, Received(s, slot, iface, len, packet), b)
  {
    var last := |s.free| - 1;
    var f := Frame(s.rx[slot], len, TagOf(iface), packet, |s.received|);
    assert s.free == s.free[..last] + [s.free[last]];
    TimesConcat(s.free[..last], [s.free[last]], b);
    SlotUpdate(s.rx, slot, s.free[last], b);
    HeldConcat(s.pending, [f], b);
    HeldOne(f, b);
  }

  lemma FlushConserves(s: State, accepted: bool, b: Buf)
    ensures Conserved(s, Flushed(s, accepted), b)
  {
    HeldConcat(s.ingress, s.pending, b);
    TimesConcat(s.lost, BufsOf(s.pending), b);
  }

  lemma TakeConserves(s: State, w: nat, count: nat, b: Buf)
    requires w < |s.batches| && count <= |s.ingress| && s.batches[w] == []
    ensures Conserved(s, Taken(s, w, count), b)
  {
    BatchUpdate(s.batches, w, s.ingress[..count], b);
    HeldConcat(s.ingress[..count], s.ingress[count..], b);
    assert s.ingress == s.ingress[..count] + s.ingress[count..];
  }

  lemma ProcessedKeepsBuffer(s: State, f: Frame, host: bool, index: nat)
    ensures Processed(s, f, host, index).frame.buf == f.buf
  {
  }

  /** The two states have the same buffers in the same places. */
  ghost predicate SameBuffers(s: State, r: State) {
    && r.free == s.free && r.rx == s.rx && r.tx == s.tx && r.pending == s.pending && r.ingress == s.ingress
    && r.batches == s.batches && r.egress == s.egress && r.lost == s.lost
  }

  /** A buffer that leaves the front of a worker's batch for the end of the egress queue. */
  lemma HandedOn(s: State, s': State, w: nat, g: Frame, b: Buf)
    requires w < |s.batches| && s.batches[w] != [] && g.buf == s.batches[w][0].buf
    requires SameBuffers(s, s'.(batches := s.batches, egress := s.egress))
    requires s'.batches == s.batches[w := s.batches[w][1..]] && s'.egress == s.egress + [g]
    ensures Conserved(s, s', b)
  {
    BatchFront(s.batches, w, b);
    HeldConcat(s.egress, [g], b);
    HeldOne(g, b);
  }

  /** A buffer that leaves the front of a worker's batch and is not returned. */
  lemma Dropped(s: State, s': State, w: nat, b: Buf)
    requires w < |s.batches| && s.batches[w] != []
    requires SameBuffers(s, s'.(batches := s.batches, lost := s.lost))
    requires s'.batches == s.batches[w := s.batches[w][1..]] && s'.lost == s.lost + [s.batches[w][0].buf]
    ensures Conserved(s, s', b)
  {
    BatchFront(s.batches, w, b);
    TimesConcat(s.lost, [s.batches[w][0].buf], b);
  }

  lemma BatchFront(bs: seq<seq<Frame>>, w: nat, b: Buf)
    requires w < |bs| && bs[w] != []
    ensures HeldByAll(bs[w := bs[w][1..]], b) + Times([bs[w][0].buf], b) == HeldByAll(bs, b)
    ensures CountAll(bs[w := bs[w][1..]]) + 1 == CountAll(bs)
  {
    BatchUpdate(bs, w, bs[w][1..], b);
    HeldRemove(bs[w], 0, b);
    assert Remove(bs[w], 0) == bs[w][1..];
  }

  lemma WorkConserves(s: State, w: nat, accepted: bool, host: bool, index: nat, b: Buf)
    requires w < |s.batches| && s.batches[w] != []
    ensures Conserved(s, Worked(s, w, accepted, host, index), b)
  {
    var o := Processed(s, s.batches[w][0], host, index);
    ProcessedKeepsBuffer(s, s.batches[w][0], host, index);
    if o.offered && accepted {
      HandedOn(s, Worked(s, w, accepted, host, index), w, o.frame, b);
    } else {
      Dropped(s, Worked(s, w, accepted, host, index), w, b);
    }
  }

  /** Resolving touches neither buffers nor slots nor queues. */
  lemma ResolvedKeepsBuffers(c: Config, s: State, f: Frame, checked: real, recorded: real)
    ensures var (g, r) := Resolved(c, s, f, checked, recorded);
            g.buf == f.buf && SameBuffers(s, r)
  {
  }

  /** A buffer that leaves the egress queue for the free list. */
  lemma Reclaimed(s: State, s': State, x: Buf, i: nat, b: Buf)
    requires i < |s.egress| && s.egress[i].buf == x
    requires SameBuffers(s, s'.(free := s.free, egress := s.egress))
    requires s'.free == s.free + [x] && s'.egress == Remove(s.egress, i)
    ensures Conserved(s, s', b)
  {
    HeldRemove(s.egress, i, b);
    TimesConcat(s.free, [x], b);
  }

  /** A buffer that leaves the egress queue for a slot, whose old buffer becomes free. */
  lemma Exchanged(s: State, s': State, x: Buf, i: nat, slot: nat, b: Buf)
    requires i < |s.egress| && s.egress[i].buf == x && slot < |s.tx|
    requires SameBuffers(s, s'.(free := s.free, egress := s.egress, tx := s.tx))
    requires s'.free == s.free + [s.tx[slot]] && s'.tx == s.tx[slot := x] && s'.egress == Remove(s.egress, i)
    ensures Conserved(s, s', b)
  {
    HeldRemove(s.egress, i, b);
    SlotUpdate(s.tx, slot, x, b);
    TimesConcat(s.free, [s.tx[slot]], b);
  }

  lemma PlaceConserves(c: Config, s: State, r: State, f: Frame, i: nat, space: bool, slot: nat, b: Buf)
    requires i < |s.egress| && (space ==> slot < |s.tx|) && f.buf == s.egress[i].buf && SameBuffers(s, r)
    ensures Conserved(s, Placed(c, s, r, f, i, space, slot), b)
  {
    if space && !f.tag.discard {
      Exchanged(s, Placed(c, s, r, f, i, space, slot), f.buf, i, slot, b);
    } else {
      Reclaimed(s, Placed(c, s, r, f, i, space, slot), f.buf, i, b);
    }
  }

  lemma DispatchConserves(c: Config, s: State, i: nat, space: bool, slot: nat, checked: real, recorded: real, b: Buf)
    requires i < |s.egress| && (space ==> slot < |s.tx|)
    ensures Conserved(s, Dispatched(c, s, i, space, slot, checked, recorded), b)
  {
    ResolvedKeepsBuffers(c, s, s.egress[i], checked, recorded);
    var (f, r) := Resolved(c, s, s.egress[i], checked, recorded);
    if !r.halted {
      PlaceConserves(c, s, r.(clock := recorded), f, i, space, slot, b);
    }
  }

  /** Every step keeps every buffer, the number in circulation, and the number of slots. */
  lemma StepConserves(c: Config, s: State, step: Step, b: Buf)
    requires Enabled(c, s, step)
    ensures Conserved(s, Next(c, s, step), b)
  {
    match step
    case Receive(slot, iface, len, packet) => ReceiveConserves(s, slot, iface, len, packet, b);
    case Flush(accepted) => FlushConserves(s, accepted, b);
    case TakeBatch(w, count) => TakeConserves(s, w, count, b);
    case Work(w, accepted, host, index) => WorkConserves(s, w, accepted, host, index, b);
    case BeginRound =>
    case Dispatch(i, space, slot, checked, recorded) => DispatchConserves(c, s, i, space, slot, checked, recorded, b);
  }

  lemma {:induction false} NoBatches(n: nat)
    ensures CountAll(seq(n, _ => [])) == 0
  {
    if n > 0 {
      NoBatches(n - 1);
      var bs: seq<seq<Frame>> := seq(n, _ => []);
      assert bs[..n - 1] == seq(n - 1, _ => []);
    }
  }

  lemma InitCirculates(c: Config, s: State)
    requires Init(c, s)
    ensures Circulating(s) == |s.free|
  {
    NoBatches(c.workers);
  }

  /** Over every run no buffer is created, copied or dropped, and free, in flight and lost
      buffers together stay as many as were free at the start. */
  lemma {:induction false} BuffersConserved(c: Config, run: seq<State>, steps: seq<Step>, n: nat, b: Buf)
    requires IsRun(c, run, steps) && n < |run|
    ensures Everywhere(run[n], b) == Everywhere(run[0], b)
    ensures Circulating(run[n]) == |run[0].free|
    ensures |run[n].rx| == |run[0].rx| && |run[n].tx| == |run[0].tx|
  {
    if n == 0 {
      InitCirculates(c, run[0]);
    } else {
      BuffersConserved(c, run, steps, n - 1, b);
      StepTo(c, run, steps, n);
      StepConserves(c, run[n - 1], steps[n - 1], b);
    }
  }

  /** When the buffers are distinct at the start, each is in exactly one place, once, in every
      state of every run. */
  lemma OnePlace(c: Config, run: seq<State>, steps: seq<Step>, n: nat, b: Buf) returns (p: Place)
    requires IsRun(c, run, steps) && n < |run| && Everywhere(run[0], b) == 1
    ensures At(run[n], p, b) == 1
    ensures forall q: Place :: q != p ==> At(run[n], q, b) == 0
  {
    BuffersConserved(c, run, steps, n, b);
    p := PlaceOf(run[n], b);
  }

  lemma PlaceOf(s: State, b: Buf) returns (p: Place)
    requires Everywhere(s, b) == 1
    ensures At(s, p, b) == 1
    ensures forall q: Place :: q != p ==> At(s, q, b) == 0
  {
    p := if At(s, Free, b) == 1 then Free else if At(s, RxSlot, b) == 1 then RxSlot
         else if At(s, TxSlot, b) == 1 then TxSlot else if At(s, Pending, b) == 1 then Pending
         else if At(s, Ingress, b) == 1 then Ingress else if At(s, Batch, b) == 1 then Batch
         else if At(s, Egress, b) == 1 then Egress else Lost;
    forall q: Place | q != p ensures At(s, q, b) == 0 {
      match q
      case Free => case RxSlot => case TxSlot => case Pending =>
      case Ingress => case Batch => case Egress => case Lost =>
    }
  }

  /** When a step leaves buffers behind: a refused bulk, a refused frame, a packet that fails
      verification, is for the host, or has no route. */
  ghost predicate Leaks(s: State, step: Step) {
    match step
    case Flush(accepted) => !accepted && s.pending != []
    case Work(w, accepted, host, index) =>
      && w < |s.batches| && s.batches[w] != []
      && var f := s.batches[w][0];
         !accepted || (f.packet.IPv4? && (!Acceptable(f.packet.header, f.len) || host || index == NH_INVALID))
    case _ => false
  }

  lemma WorkLoses(s: State, w: nat, accepted: bool, host: bool, index: nat)
    requires w < |s.batches| && s.batches[w] != []
    ensures s.lost <= Worked(s, w, accepted, host, index).lost
    ensures Worked(s, w, accepted, host, index).lost != s.lost <==> Leaks(s, Work(w, accepted, host, index))
  {
    if s.batches[w][0].packet.IPv4? {
      VerifiedExact(s.batches[w][0].packet.header, s.batches[w][0].len);
    }
  }

  /** A step loses buffers exactly in those cases. */
  lemma LossExactly(c: Config, s: State, step: Step)
    requires Enabled(c, s, step)
    ensures s.lost <= Next(c, s, step).lost
    ensures Next(c, s, step).lost != s.lost <==> Leaks(s, step)
  {
    match step
    case Flush(accepted) => assert |BufsOf(s.pending)| == |s.pending|;
    case Work(w, accepted, host, index) => WorkLoses(s, w, accepted, host, index);
    case Dispatch(i, space, slot, checked, recorded) =>
      ResolvedKeepsBuffers(c, s, s.egress[i], checked, recorded);
    case _ =>
  }

  ghost predicate LeakFree(run: seq<State>, steps: seq<Step>, n: nat)
    requires n <= |steps| < |run|
  {
    forall i {:trigger Leaks(run[i], steps[i])} :: 0 <= i < n ==> !Leaks(run[i], steps[i])
  }

  lemma LeakFreeNext(run: seq<State>, steps: seq<Step>, n: nat)
    requires 0 < n <= |steps| < |run|
    ensures LeakFree(run, steps, n) <==> LeakFree(run, steps, n - 1) && !Leaks(run[n - 1], steps[n - 1])
  {
  }

  /** A run has lost nothing exactly as long as none of its steps was such a case. */
  lemma {:induction false} LeakFreeExactly(c: Config, run: seq<State>, steps: seq<Step>, n: nat)
    requires IsRun(c, run, steps) && n < |run|
    ensures run[n].lost == [] <==> LeakFree(run, steps, n)
  {
    if n > 0 {
      LeakFreeExactly(c, run, steps, n - 1);
      var s, step := run[n - 1], steps[n - 1];
      assert Enabled(c, s, step) && run[n] == Next(c, s, step);
      LossExactly(c, s, step);
      LeakFreeNext(run, steps, n);
    }
  }
}
