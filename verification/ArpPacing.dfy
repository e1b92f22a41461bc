/** Pacing of ARP requests: over every run, requests for one destination are at least half a
    second apart (src/manager.cpp). */
module ArpPacing {
  import opened Words
  import opened Router
  import Arp

  /** Requests for one address, in the order they were prepared, are half a second apart. */
  ghost predicate Spaced(rs: seq<Request>) {
    forall i, j :: 0 <= i < j < |rs| && rs[i].ip == rs[j].ip ==> rs[j].time - rs[i].time >= 0.5
  }

  /** The manager remembers the time of the latest request for each address. */
  ghost predicate Remembered(missing: map<Word, real>, rs: seq<Request>) {
    && (forall i :: 0 <= i < |rs| ==> rs[i].ip in missing && rs[i].time <= missing[rs[i].ip])
    && (forall ip :: ip in missing ==> exists i :: 0 <= i < |rs| && rs[i].ip == ip && rs[i].time == missing[ip])
  }

  /** A request for the address was made less than half a second before. */
  ghost predicate Recent(rs: seq<Request>, ip: Word, now: real) {
    exists i :: 0 <= i < |rs| && rs[i].ip == ip && now - rs[i].time < 0.5
  }

  /** A request is due exactly when the log has no recent one. */
  lemma DueExact(s: State, ip: Word, now: real)
    requires Paced(s)
    ensures Due(s, ip, now) <==> !Recent(s.requests, ip, now)
  {
  }

  lemma AskedPaced(s: State, ip: Word, iface: nat, checked: real, recorded: real)
    requires Paced(s) && checked <= recorded && (ip in s.missing ==> checked - s.missing[ip] >= 0.5)
    ensures Paced(Asked(s, ip, iface, recorded))
  {
    var u := Asked(s, ip, iface, recorded);
    assert u.requests[|s.requests|] == Request(ip, iface, recorded);
    forall x | x in u.missing ensures exists i :: 0 <= i < |u.requests| && u.requests[i].ip == x && u.requests[i].time == u.missing[x] {
      if x != ip {
        var i :| 0 <= i < |s.requests| && s.requests[i].ip == x && s.requests[i].time == s.missing[x];
        assert u.requests[i] == s.requests[i];
      }
    }
  }

  ghost predicate Paced(s: State) {
    Spaced(s.requests) && Remembered(s.missing, s.requests)
  }

  lemma ResolvedPaced(c: Config, s: State, f: Frame, checked: real, recorded: real)
    requires Paced(s) && checked <= recorded
    ensures Paced(Resolved(c, s, f, checked, recorded).1)
  {
    if f.tag.noMac && !f.tag.host && !f.tag.arp && f.packet.IPv4? {
      var ip := DestIp(f.packet.header);
      if ip in s.missing ==> checked - s.missing[ip] >= 0.5 {
        AskedPaced(s, ip, f.tag.id, checked, recorded);
      }
    }
  }

  lemma DispatchPaced(c: Config, s: State, i: nat, space: bool, slot: nat, checked: real, recorded: real)
    requires Paced(s) && i < |s.egress| && (space ==> slot < |s.tx|) && checked <= recorded
    ensures Paced(Dispatched(c, s, i, space, slot, checked, recorded))
  {
    ResolvedPaced(c, s, s.egress[i], checked, recorded);
    var (f, r) := Resolved(c, s, s.egress[i], checked, recorded);
    if !r.halted {
      var s' := Placed(c, s, r.(clock := recorded), f, i, space, slot);
      assert s'.requests == r.requests && s'.missing == r.missing;
    }
  }

  lemma StepPaced(c: Config, s: State, step: Step)
    requires Paced(s) && Enabled(c, s, step)
    ensures Paced(Next(c, s, step))
  {
    if step.Dispatch? {
      DispatchPaced(c, s, step.position, step.space, step.slot, step.checked, step.recorded);
    }
  }

  /** Every state of every run is paced. */
  lemma {:induction false} RunPaced(c: Config, run: seq<State>, steps: seq<Step>, n: nat)
    requires IsRun(c, run, steps) && n < |run|
    ensures Paced(run[n])
  {
    if n > 0 {
      RunPaced(c, run, steps, n - 1);
      StepPaced(c, run[n - 1], steps[n - 1]);
    }
  }

  function InWindow(r: Request, ip: Word, from: real, to: real): bool {
    r.ip == ip && from <= r.time <= to
  }

  /** Number of requests for an address in a window of time. */
  function Count(rs: seq<Request>, ip: Word, from: real, to: real): nat {
    if rs == [] then 0
    else Count(rs[..|rs| - 1], ip, from, to) + if InWindow(rs[|rs| - 1], ip, from, to) then 1 else 0
  }

  /** The last request of a window bounds how many came before it. */
  lemma {:induction false} CountUpToLast(rs: seq<Request>, ip: Word, from: real, to: real) returns (last: nat)
    requires Spaced(rs) && Count(rs, ip, from, to) > 0
    ensures last < |rs| && InWindow(rs[last], ip, from, to)
    ensures Count(rs, ip, from, to) as real - 1.0 <= 2.0 * (rs[last].time - from)
  {
    var n := |rs| - 1;
    if !InWindow(rs[n], ip, from, to) {
      last := CountUpToLast(rs[..n], ip, from, to);
    } else {
      last := n;
      if Count(rs[..n], ip, from, to) > 0 {
        var before := CountUpToLast(rs[..n], ip, from, to);
        assert rs[n].time - rs[before].time >= 0.5;
      }
    }
  }

  /** In a window of length T at most T/0.5 + 1 requests are prepared for one destination. */
  lemma WindowBound(c: Config, run: seq<State>, steps: seq<Step>, n: nat, ip: Word, from: real, to: real)
    requires IsRun(c, run, steps) && n < |run| && from <= to
    ensures Count(run[n].requests, ip, from, to) as real <= (to - from) / 0.5 + 1.0
  {
    RunPaced(c, run, steps, n);
    if Count(run[n].requests, ip, from, to) > 0 {
      var last := CountUpToLast(run[n].requests, ip, from, to);
    }
  }
}
