/** The loops of the manager and the workers, as methods on the shared state: each is a sequence
    of the atomic steps, so everything proved of runs holds at every point of these loops. */
module RouterLoops {
  import opened Words
  import opened Routes
  import opened Checksum
  import opened Router
  import opened TrieShape
  import opened Reading
  import BasicTries

  /** Consecutive states linked by steps. */
  ghost predicate Trace(c: Config, states: seq<State>, steps: seq<Step>) {
    && |states| == |steps| + 1
    && forall i :: 0 <= i < |steps| ==> Enabled(c, states[i], steps[i]) && states[i + 1] == Next(c, states[i], steps[i])
  }

  ghost predicate Leads(c: Config, from: State, states: seq<State>, steps: seq<Step>, to: State) {
    Trace(c, states, steps) && states[0] == from && states[|states| - 1] == to
  }

  lemma Extend(c: Config, from: State, states: seq<State>, steps: seq<Step>, s: State, step: Step)
    requires Leads(c, from, states, steps, s) && Enabled(c, s, step)
    ensures Leads(c, from, states + [Next(c, s, step)], steps + [step], Next(c, s, step))
  {
  }

  lemma Append(c: Config, from: State, xs: seq<State>, steps: seq<Step>, mid: State, ys: seq<State>, more: seq<Step>, to: State)
    requires Leads(c, from, xs, steps, mid) && Leads(c, mid, ys, more, to)
    ensures Leads(c, from, xs + ys[1..], steps + more, to)
  {
    var all, done := xs + ys[1..], steps + more;
    forall i | 0 <= i < |done| ensures Enabled(c, all[i], done[i]) && all[i + 1] == Next(c, all[i], done[i]) {
      if i >= |steps| {
        assert all[i] == ys[i - |steps|] && all[i + 1] == ys[i - |steps| + 1];
      }
    }
  }

  /** A trace that continues a run makes a longer run. */
  lemma Continue(c: Config, run: seq<State>, steps: seq<Step>, states: seq<State>, more: seq<Step>, s: State)
    requires IsRun(c, run, steps) && Leads(c, run[|run| - 1], states, more, s)
    ensures IsRun(c, run + states[1..], steps + more)
    ensures (run + states[1..])[|run + states[1..]| - 1] == s
  {
    Append(c, run[0], run, steps, run[|run| - 1], states, more, s);
  }

  datatype Arrival = Arrival(slot: nat, len: nat, packet: Packet)

  ghost predicate LogsAs(a: Arrived, x: Arrival, iface: nat) {
    a.iface == iface && a.len == x.len && a.packet == x.packet
  }

  /** The log has grown by these arrivals, in their order. */
  ghost predicate Logged(now: seq<Arrived>, before: seq<Arrived>, arrivals: seq<Arrival>, iface: nat) {
    && before <= now && |now| == |before| + |arrivals|
    && forall k :: 0 <= k < |arrivals| ==> LogsAs(now[|before| + k], arrivals[k], iface)
  }

  lemma LoggedNext(before: seq<Arrived>, arrivals: seq<Arrival>, n: nat, iface: nat, now: seq<Arrived>)
    requires n < |arrivals| && |now| > 0 && Logged(now[..|now| - 1], before, arrivals[..n], iface)
    requires LogsAs(now[|now| - 1], arrivals[n], iface)
    ensures Logged(now, before, arrivals[..n + 1], iface)
  {
    var front, more := now[..|now| - 1], arrivals[..n + 1];
    assert now == front + [now[|front|]] && |front| == |before| + n;
    forall k | 0 <= k < |more| ensures LogsAs(now[|before| + k], more[k], iface) {
      if k < n {
        assert arrivals[..n][k] == more[k] && now[|before| + k] == front[|before| + k];
      }
    }
  }

  function Min(a: nat, b: nat): nat {
    if a < b then a else b
  }

  class Engine {
    const c: Config
    const lpm: BasicTries.BasicTrie
    var s: State

    /** The lookup structure was built from the routing table in use. */
    ghost predicate Ready()
      reads this, lpm, lpm.repr
    {
      && CanonicalTable(c.table) && ValidIndices(c.table)
      && lpm.Valid() && lpm.shape == BuiltShape(c.table, 33)
    }

    constructor (c: Config, lpm: BasicTries.BasicTrie, s: State)
      ensures this.c == c && this.lpm == lpm && this.s == s
    {
      this.c, this.lpm, this.s := c, lpm, s;
    }

    /** Take the filled slots of one receive ring while free buffers last, in bulks, and offer
        each bulk to the workers. */
    method ReceiveRing(arrivals: seq<Arrival>, iface: nat) returns (ghost states: seq<State>, ghost steps: seq<Step>)
      requires !s.halted && CanonicalTable(c.table) && iface < c.ifaces && s.pending == []
      requires forall a :: a in arrivals ==> a.slot < |s.rx|
      modifies this
      ensures Leads(c, old(s), states, steps, s)
      ensures s.pending == [] && !s.halted
      ensures |s.free| == old(|s.free|) - Min(|arrivals|, old(|s.free|))
      ensures Logged(s.received, old(s.received), arrivals[..Min(|arrivals|, old(|s.free|))], iface)
    {
      states, steps := [s], [];
      var next := 0;
      while next < |arrivals| && s.free != []
        invariant 0 <= next <= |arrivals| && Leads(c, old(s), states, steps, s)
        invariant s.pending == [] && !s.halted && |s.rx| == old(|s.rx|)
        invariant |s.free| == old(|s.free|) - next && Logged(s.received, old(s.received), arrivals[..next], iface)
        decreases |arrivals| - next
      {
        var numFrames := Min(Min(|arrivals| - next, |s.free|), MANAGER_BULK);
        ghost var start := next;
        for i := 0 to numFrames
          invariant next == start + i && Leads(c, old(s), states, steps, s)
          invariant |s.pending| == i && !s.halted && |s.rx| == old(|s.rx|)
          invariant |s.free| == old(|s.free|) - next && Logged(s.received, old(s.received), arrivals[..next], iface)
        {
          var a := arrivals[next];
          assert a in arrivals;
          Extend(c, old(s), states, steps, s, Receive(a.slot, iface, a.len, a.packet));
          s := Received(s, a.slot, iface, a.len, a.packet);
          states, steps := states + [s], steps + [Receive(a.slot, iface, a.len, a.packet)];
          LoggedNext(old(s.received), arrivals, next, iface, s.received);
          next := next + 1;
        }
        var accepted: bool := *;
        Extend(c, old(s), states, steps, s, Flush(accepted));
        s := Flushed(s, accepted);
        states, steps := states + [s], steps + [Flush(accepted)];
      }
    }

    /** Look up a destination in the trie. */
    method Lookup(dst: Word) returns (index: nat)
      requires Ready()
      ensures IsRead(c.table, dst, index)
    {
      BuiltDepth(c.table);
      TrieIsLongestMatch(c.table, dst);
      index := lpm.Route(dst);
    }

    /** A worker's turn: batches from the ingress queue until it is empty or the program aborts. */
    method WorkerProcess(w: nat) returns (ghost states: seq<State>, ghost steps: seq<Step>)
      requires Ready() && this as object != lpm && this as object !in lpm.repr
      requires !s.halted && w < |s.batches| && s.batches[w] == []
      modifies this
      ensures Leads(c, old(s), states, steps, s)
      ensures w < |s.batches|
      ensures s.halted || (s.ingress == [] && s.batches[w] == [])
    {
      states, steps := [s], [];
      while s.ingress != []
        invariant Ready() && w < |s.batches| && Leads(c, old(s), states, steps, s)
        invariant !s.halted && s.batches[w] == []
        decreases |s.ingress|
      {
        var count := Min(|s.ingress|, WORKER_BULK);
        Extend(c, old(s), states, steps, s, TakeBatch(w, count));
        s := Taken(s, w, count);
        states, steps := states + [s], steps + [TakeBatch(w, count)];
        ghost var middle := s;
        ghost var more, moreSteps := WorkBatch(w);
        Append(c, old(s), states, steps, middle, more, moreSteps, s);
        states, steps := states + more[1..], steps + moreSteps;
        if s.halted {
          return;
        }
      }
    }

    /** Process a worker's batch to its end, or until the program aborts. */
    method WorkBatch(w: nat) returns (ghost states: seq<State>, ghost steps: seq<Step>)
      requires Ready() && this as object != lpm && this as object !in lpm.repr
      requires !s.halted && w < |s.batches|
      modifies this
      ensures Leads(c, old(s), states, steps, s)
      ensures w < |s.batches| && s.ingress == old(s.ingress) && (s.halted || s.batches[w] == [])
    {
      states, steps := [s], [];
      while s.batches[w] != [] && !s.halted
        invariant Ready() && w < |s.batches| && Leads(c, old(s), states, steps, s) && s.ingress == old(s.ingress)
        decreases |s.batches[w]|
      {
        ghost var before := s;
        ghost var step;
        step := WorkOne(w);
        Extend(c, old(s), states, steps, before, step);
        states, steps := states + [s], steps + [step];
      }
    }

    /** One frame of the batch. */
    method WorkOne(w: nat) returns (ghost step: Step)
      requires Ready() && !s.halted && w < |s.batches| && s.batches[w] != []
      modifies this
      ensures Enabled(c, old(s), step) && s == Next(c, old(s), step)
      ensures |s.batches| == old(|s.batches|) && |s.batches[w]| == old(|s.batches[w]|) - 1 && s.ingress == old(s.ingress)
    {
      var f := s.batches[w][0];
      var index := NH_INVALID;
      if f.packet.IPv4? {
        index := Lookup(DestIp(f.packet.header));
      }
      var host: bool, accepted: bool := *, *;
      step := Work(w, accepted, host, index);
      s := Worked(s, w, accepted, host, index);
    }

    /** The manager's second half: handle everything the workers have put on the egress queue, unless
        a request on an interface without an address stops the program. */
    method DrainEgress() returns (ghost states: seq<State>, ghost steps: seq<Step>)
      requires !s.halted && CanonicalTable(c.table)
      modifies this
      ensures Leads(c, old(s), states, steps, s)
      ensures s.clock >= old(s.clock)
      ensures if s.halted then Waiting(s.egress) else s.egress == []
    {
      states, steps := [s], [];
      Extend(c, old(s), states, steps, s, BeginRound);
      s := s.(ring := 0, kept := 0);
      states, steps := states + [s], steps + [BeginRound];
      while s.egress != [] && !s.halted
        invariant Leads(c, old(s), states, steps, s) && s.clock >= old(s.clock)
        invariant s.halted ==> Waiting(s.egress)
        decreases |s.egress|, if s.halted then 0 else 1
      {
        ghost var before := s;
        ghost var step;
        step := DispatchOne();
        Extend(c, old(s), states, steps, before, step);
        states, steps := states + [s], steps + [step];
      }
    }

    /** A packet waits for a MAC on an interface without an address. */
    ghost predicate Waiting(egress: seq<Frame>) {
      exists f :: f in egress && f.tag.noMac && f.packet.IPv4? && !HasAddress(c, f.tag.id)
    }

    method DispatchOne() returns (ghost step: Step)
      requires !s.halted && CanonicalTable(c.table) && s.egress != []
      modifies this
      ensures Enabled(c, old(s), step) && s == Next(c, old(s), step)
      ensures if s.halted then s.egress == old(s.egress) && Waiting(s.egress) else |s.egress| == old(|s.egress|) - 1
      ensures s.clock >= old(s.clock)
    {
      var checked: real, recorded: real := *, *;
      if checked < s.clock { checked := s.clock; }
      if recorded < checked { recorded := checked; }
      var (f, _) := Resolved(c, s, s.egress[0], checked, recorded);
      var space: bool, slot: nat := *, *;
      if slot >= |s.tx| || !InRing(c, slot, f.tag.id, NextRing(c, s.ring, s.egress[0].tag.host)) {
        space := false;
      }
      step := Dispatch(0, space, slot, checked, recorded);
      DispatchedOne(c, s, 0, space, slot, checked, recorded);
      s := Dispatched(c, s, 0, space, slot, checked, recorded);
    }
  }
}
