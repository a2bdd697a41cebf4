/**
  Worker supervision (src/peer.c): one slot per configured peer, workers that may end
  at any moment, and the messages by which the manager learns of it. The operating
  system is class Exec: between any two of its calls, unless Forbid() holds, any
  running workers may reply and be gone.
*/
module Supervision {
  import opened Bytes

  const PEER_BACKOFF_MIN: nat := 2
  const PEER_BACKOFF_MAX: nat := 60

  /** Bytes received and sent. */
  datatype Count = Count(received: nat, sent: nat)

  function Add(a: Count, b: Count): Count {
    Count(a.received + b.received, a.sent + b.sent)
  }

  /** The startup block of a worker that has ended, as it comes back. */
  datatype Reply = Reply(proc: nat, slot: nat, connected: bool, moved: Count)

  datatype Sig = Stop | Rescan

  datatype PeerSlot = PeerSlot(id: seq<byte>, host: string, haveAddr: bool, paused: bool, removed: bool,
                               proc: Option<nat>, backoff: nat, totals: Count)

  datatype Way = In | Out

  function Part(c: Count, w: Way): nat {
    if w.In? then c.received else c.sent
  }

  /** What a reply is worth to slot i. */
  function Worth(r: Reply, i: nat, w: Way): nat {
    if r.slot == i then Part(r.moved, w) else 0
  }

  function Sum(rs: seq<Reply>, i: nat, w: Way): nat {
    if rs == [] then 0 else Sum(rs[..|rs| - 1], i, w) + Worth(rs[|rs| - 1], i, w)
  }

  lemma SumSnoc(rs: seq<Reply>, r: Reply, i: nat, w: Way)
    ensures Sum(rs + [r], i, w) == Sum(rs, i, w) + Worth(r, i, w)
  {
    hide Worth;
    assert (rs + [r])[..|rs|] == rs;
  }

  lemma {:induction false} SumHead(rs: seq<Reply>, i: nat, w: Way)
    requires rs != []
    ensures Sum(rs, i, w) == Worth(rs[0], i, w) + Sum(rs[1..], i, w)
  {
    hide Worth;
    var less, last := rs[..|rs| - 1], rs[|rs| - 1];
    if less == [] {
      assert rs[1..] == [] && Sum(less, i, w) == 0;
    } else {
      SumHead(less, i, w);
      SumSnoc(less[1..], last, i, w);
      assert rs[1..] == less[1..] + [last];
    }
  }

  // ------------------------------------------------------- the invariant

  predicate InPort(port: seq<Reply>, p: nat) {
    exists k :: 0 <= k < |port| && port[k].proc == p
  }

  /** Every running worker and every waiting reply belongs to the one slot that holds its
      process, and every held process is running or has its reply waiting: at most one
      startup block per slot is outstanding. */
  predicate Matched(slots: seq<PeerSlot>, running: map<nat, nat>, port: seq<Reply>) {
    && (forall p :: p in running ==> running[p] < |slots| && slots[running[p]].proc == Some(p))
    && (forall k :: 0 <= k < |port| ==> port[k].slot < |slots| && slots[port[k].slot].proc == Some(port[k].proc)
                                        && port[k].proc !in running)
    && (forall j, k :: 0 <= j < k < |port| ==> port[j].slot != port[k].slot)
    && (forall i, j :: 0 <= i < j < |slots| && slots[i].proc.Some? ==> slots[i].proc != slots[j].proc)
    && (forall i :: 0 <= i < |slots| && slots[i].proc.Some? ==> slots[i].proc.value in running || InPort(port, slots[i].proc.value))
  }

  /** What was folded into the slots and what still waits make up all that ended workers
      have moved: each session counts exactly once. */
  predicate Folded(slots: seq<PeerSlot>, port: seq<Reply>, log: seq<Reply>) {
    forall i, w :: 0 <= i < |slots| ==> Part(slots[i].totals, w) + Sum(port, i, w) == Sum(log, i, w)
  }

  lemma PostKeeps(slots: seq<PeerSlot>, running: map<nat, nat>, port: seq<Reply>, r: Reply)
    requires Matched(slots, running, port) && r.proc in running && r.slot == running[r.proc]
    ensures Matched(slots, running - {r.proc}, port + [r])
  {
    var port', running' := port + [r], running - {r.proc};
    forall i | 0 <= i < |slots| && slots[i].proc.Some?
      ensures slots[i].proc.value in running' || InPort(port', slots[i].proc.value)
    {
      var p := slots[i].proc.value;
      if p == r.proc {
        assert port'[|port|].proc == p;
      } else if p !in running {
        var k :| 0 <= k < |port| && port[k].proc == p;
        assert port'[k].proc == p;
      }
    }
  }

  lemma ReapKeeps(slots: seq<PeerSlot>, running: map<nat, nat>, port: seq<Reply>, s: PeerSlot)
    requires Matched(slots, running, port) && port != [] && s.proc == None
    ensures port[0].slot < |slots| && Matched(slots[port[0].slot := s], running, port[1..])
  {
    var r, port' := port[0], port[1..];
    var slots' := slots[r.slot := s];
    assert forall k :: 0 <= k < |port'| ==> port'[k] == port[k + 1];
    forall i | 0 <= i < |slots'| && slots'[i].proc.Some?
      ensures slots'[i].proc.value in running || InPort(port', slots'[i].proc.value)
    {
      var p := slots[i].proc.value;
      if p !in running {
        var k :| 0 <= k < |port| && port[k].proc == p;
        assert k != 0 && port'[k - 1].proc == p;
      }
    }
  }

  lemma SpawnKeeps(slots: seq<PeerSlot>, running: map<nat, nat>, port: seq<Reply>, i: nat, p: nat, s: PeerSlot)
    requires Matched(slots, running, port) && i < |slots| && slots[i].proc == None && s.proc == Some(p)
    requires p !in running && !InPort(port, p)
    ensures Matched(slots[i := s], running[p := i], port)
  {
    var slots' := slots[i := s];
    forall j | 0 <= j < |slots| && slots[j].proc.Some? ensures slots[j].proc != Some(p) {
    }
  }

  /** Nothing but the process and the totals of a slot matters to the invariant. */
  lemma EditKeeps(slots: seq<PeerSlot>, running: map<nat, nat>, port: seq<Reply>, log: seq<Reply>, i: nat, s: PeerSlot)
    requires Matched(slots, running, port) && Folded(slots, port, log) && i < |slots|
    requires s.proc == slots[i].proc && s.totals == slots[i].totals
    ensures Matched(slots[i := s], running, port) && Folded(slots[i := s], port, log)
  {
    hide InPort, Sum;
    var slots' := slots[i := s];
    assert forall j :: 0 <= j < |slots| ==> slots'[j].proc == slots[j].proc && slots'[j].totals == slots[j].totals;
  }

  lemma GrowMatches(slots: seq<PeerSlot>, running: map<nat, nat>, port: seq<Reply>, s: PeerSlot)
    requires Matched(slots, running, port) && s.proc == None
    ensures Matched(slots + [s], running, port)
  {
    hide InPort;
    var slots' := slots + [s];
    assert forall i :: 0 <= i < |slots| ==> slots'[i] == slots[i];
    assert slots'[|slots|].proc == None;
  }

  lemma GrowFolds(slots: seq<PeerSlot>, port: seq<Reply>, log: seq<Reply>, s: PeerSlot)
    requires Folded(slots, port, log) && s.totals == Count(0, 0) && LogFits(log, |slots|) && LogFits(port, |slots|)
    ensures Folded(slots + [s], port, log) && LogFits(log, |slots| + 1)
  {
    hide Sum;
    forall w: Way ensures Sum(port, |slots|, w) == 0 && Sum(log, |slots|, w) == 0 {
      NoneFor(port, |slots|, w);
      NoneFor(log, |slots|, w);
    }
  }

  lemma PortFits(slots: seq<PeerSlot>, running: map<nat, nat>, port: seq<Reply>)
    requires Matched(slots, running, port)
    ensures LogFits(port, |slots|)
  {
  }

  lemma {:induction false} NoneFor(rs: seq<Reply>, i: nat, w: Way)
    requires forall k :: 0 <= k < |rs| ==> rs[k].slot != i
    ensures Sum(rs, i, w) == 0
  {
    if rs != [] {
      NoneFor(rs[..|rs| - 1], i, w);
    }
  }

  lemma PostFolds(slots: seq<PeerSlot>, port: seq<Reply>, log: seq<Reply>, r: Reply)
    requires Folded(slots, port, log)
    ensures Folded(slots, port + [r], log + [r])
  {
    hide Sum, Worth, Part;
    forall i, w | 0 <= i < |slots| ensures Part(slots[i].totals, w) + Sum(port + [r], i, w) == Sum(log + [r], i, w) {
      SumSnoc(port, r, i, w);
      SumSnoc(log, r, i, w);
    }
  }

  /** slot_fold: the session's bytes go into the totals of its slot. */
  lemma ReapFolds(slots: seq<PeerSlot>, port: seq<Reply>, log: seq<Reply>, s: PeerSlot)
    requires Folded(slots, port, log) && port != [] && port[0].slot < |slots|
    requires s.totals == Add(slots[port[0].slot].totals, port[0].moved)
    ensures Folded(slots[port[0].slot := s], port[1..], log)
  {
    hide Sum;
    var slots' := slots[port[0].slot := s];
    forall i, w | 0 <= i < |slots| ensures Part(slots'[i].totals, w) + Sum(port[1..], i, w) == Sum(log, i, w) {
      SumHead(port, i, w);
    }
  }

  /** From one moment to a later one every reply that was waiting, and every one posted
      since, is among those in port, in the order in which they came. */
  predicate Flows(port: seq<Reply>, log: seq<Reply>, port': seq<Reply>, log': seq<Reply>) {
    log <= log' && port' == port + log'[|log|..]
  }

  lemma FlowsOn(port: seq<Reply>, log: seq<Reply>, taken: seq<Reply>, port1: seq<Reply>, log1: seq<Reply>,
                port2: seq<Reply>, log2: seq<Reply>)
    requires Flows(port, log, taken + port1, log1) && Flows(port1, log1, port2, log2)
    ensures Flows(port, log, taken + port2, log2)
  {
    assert log1[..|log|] == log && log2[..|log1|] == log1;
    assert log2[..|log|] == log;
    assert log2[|log|..] == log1[|log|..] + log2[|log1|..];
    assert taken + (port1 + log2[|log1|..]) == (taken + port1) + log2[|log1|..];
  }

  lemma FlowsMean(port: seq<Reply>, log: seq<Reply>, port': seq<Reply>, log': seq<Reply>)
    requires Flows(port, log, port', log')
    ensures log <= log' && port' == port + log'[|log|..]
  {
  }

  lemma FlowsStart(port: seq<Reply>, log: seq<Reply>)
    ensures Flows(port, log, port, log)
  {
  }

  lemma FlowsMore(port: seq<Reply>, log: seq<Reply>, port': seq<Reply>, log': seq<Reply>, r: Reply)
    requires Flows(port, log, port', log')
    ensures Flows(port, log, port' + [r], log' + [r])
  {
    assert (log' + [r])[|log|..] == log'[|log|..] + [r];
  }

  // -------------------------------------------------- the operating system

  class Exec {
    var running: map<nat, nat>
    var port: seq<Reply>
    var forbidden: bool
    var next: nat
    var quota: nat
    ghost var log: seq<Reply>
    ghost var signals: seq<(nat, Sig)>

    ghost predicate Valid()
      reads this
    {
      && (forall p :: p in running ==> p < next)
      && (forall k :: 0 <= k < |port| ==> port[k].proc < next)
    }

    constructor ()
      ensures Valid() && running == map[] && port == [] && !forbidden && log == [] && signals == []
    {
      running, port, forbidden, next, quota, log, signals := map[], [], false, 0, 0, [], [];
    }

    /** Time passes: workers may do as much as they like from now on. */
    method Elapse()
      modifies `quota
    {
      var q: int := *;
      quota := if q < 0 then 0 else q;
    }

    /** A running worker ends: its block is replied and its process is gone. */
    method End(p: nat, ghost slots: seq<PeerSlot>)
      requires Valid() && p in running && Matched(slots, running, port) && Folded(slots, port, log)
      modifies `running, `port, `log
      ensures Valid() && Matched(slots, running, port) && Folded(slots, port, log)
      ensures running == old(running) - {p} && log != [] && log[|log| - 1].slot == old(running)[p]
      ensures port == old(port) + [log[|log| - 1]] && log == old(log) + [log[|log| - 1]]
    {
      var c: bool, a: int, b: int := *, *, *;
      var r := Reply(p, running[p], c, Count(if a < 0 then 0 else a, if b < 0 then 0 else b));
      PostKeeps(slots, running, port, r);
      PostFolds(slots, port, log, r);
      running, port, log := running - {p}, port + [r], log + [r];
    }

    /** Whatever workers do while the manager is not looking; nothing under Forbid(). The
        quota bounds how often, so that a call of the manager can come to an end. */
    method Preempt(ghost slots: seq<PeerSlot>)
      requires Valid() && Matched(slots, running, port) && Folded(slots, port, log) && LogFits(log, |slots|)
      modifies `running, `port, `quota, `log
      ensures Valid() && Matched(slots, running, port) && Folded(slots, port, log) && LogFits(log, |slots|)
      ensures forall p :: p in running ==> p in old(running) && running[p] == old(running)[p]
      ensures |running| + |port| == |old(running)| + |old(port)| && quota + |port| == old(quota) + |old(port)|
      ensures forbidden ==> running == old(running) && port == old(port) && log == old(log)
      ensures Flows(old(port), old(log), port, log)
    {
      hide Matched, Folded, LogFits, Flows;
      FlowsStart(port, log);
      if forbidden {
        return;
      }
      var more: bool := *;
      while more && quota > 0 && |running| > 0
        invariant Valid() && Matched(slots, running, port) && Folded(slots, port, log) && LogFits(log, |slots|)
        invariant forall p :: p in running ==> p in old(running) && running[p] == old(running)[p]
        invariant |running| + |port| == |old(running)| + |old(port)| && quota + |port| == old(quota) + |old(port)|
        invariant Flows(old(port), old(log), port, log)
        decreases quota
      {
        ghost var was := running;
        var p :| p in running;
        Smaller(running, p);
        SlotOf(slots, running, port, p);
        ghost var portWas, logWas := port, log;
        End(p, slots);
        LogGrows(logWas, log, |slots|);
        FlowsMore(old(port), old(log), portWas, logWas, log[|log| - 1]);
        quota := quota - 1;
        more := *;
      }
    }

    /** GetMsg */
    method GetMsg(ghost slots: seq<PeerSlot>) returns (r: Option<Reply>)
      requires Valid() && Matched(slots, running, port) && Folded(slots, port, log) && LogFits(log, |slots|)
      modifies `running, `port, `quota, `log
      ensures Valid() && LogFits(log, |slots|)
      ensures Flows(old(port), old(log), (if r.Some? then [r.value] else []) + port, log)
      ensures old(log) <= log && (if r.Some? then [r.value] else []) + port == old(port) + log[|old(log)|..]
      ensures forall p :: p in running ==> p in old(running) && running[p] == old(running)[p]
      ensures r.None? ==> port == [] && Matched(slots, running, port) && Folded(slots, port, log)
      ensures r.Some? ==> Matched(slots, running, [r.value] + port) && Folded(slots, [r.value] + port, log)
      ensures old(port) != [] ==> r.Some?
      ensures forbidden ==> running == old(running) && log == old(log) && old(port) == if r.Some? then [r.value] + port else port
      ensures |running| + |port| + (if r.Some? then 1 else 0) == |old(running)| + |old(port)|
      ensures quota + |port| + (if r.Some? then 1 else 0) == old(quota) + |old(port)|
    {
      hide Matched, Folded, LogFits;
      Preempt(slots);
      if port == [] {
        assert [] + port == port;
        return None;
      }
      r := Some(port[0]);
      assert [port[0]] + port[1..] == port;
      port := port[1..];
    }

    /** CreateNewProc and PutMsg: a new process with a startup block for slot i, or none. */
    method CreateProc(i: nat) returns (p: Option<nat>)
      requires Valid()
      modifies `running, `next
      ensures Valid()
      ensures p.None? ==> running == old(running)
      ensures p.Some? ==> p.value !in old(running) && !InPort(port, p.value) && running == old(running)[p.value := i]
    {
      var ok: bool := *;
      if !ok {
        return None;
      }
      p := Some(next);
      running, next := running[next := i], next + 1;
    }

    /** Forbid. Workers may still end just before it takes effect. */
    method Forbid(ghost slots: seq<PeerSlot>)
      requires Valid() && Matched(slots, running, port) && Folded(slots, port, log) && LogFits(log, |slots|) && !forbidden
      modifies `running, `port, `quota, `log, `forbidden
      ensures Valid() && Matched(slots, running, port) && Folded(slots, port, log) && LogFits(log, |slots|) && forbidden
      ensures forall p :: p in running ==> p in old(running) && running[p] == old(running)[p]
      ensures |running| + |port| == |old(running)| + |old(port)| && Flows(old(port), old(log), port, log)
    {
      hide Matched, Folded, LogFits, Flows;
      Preempt(slots);
      forbidden := true;
    }

    method Permit()
      requires forbidden
      modifies `forbidden
      ensures !forbidden
    {
      forbidden := false;
    }

    /** Signal. The process must exist, and be unable to end meanwhile. */
    method Signal(p: nat, sig: Sig)
      requires forbidden && p in running
      modifies `signals
      ensures signals == old(signals) + [(p, sig)]
    {
      signals := signals + [(p, sig)];
    }

    /** WaitPort: asleep until a reply is there; some worker must still be able to send it. */
    method WaitPort(ghost slots: seq<PeerSlot>)
      requires Valid() && Matched(slots, running, port) && Folded(slots, port, log) && LogFits(log, |slots|)
      requires !forbidden && (port != [] || |running| > 0)
      modifies `running, `port, `quota, `log
      ensures Valid() && Matched(slots, running, port) && Folded(slots, port, log) && LogFits(log, |slots|)
      ensures port != [] && |running| + |port| == |old(running)| + |old(port)| && Flows(old(port), old(log), port, log)
      ensures forall p :: p in running ==> p in old(running) && running[p] == old(running)[p]
    {
      hide Matched, Folded, LogFits, Flows;
      FlowsStart(port, log);
      Elapse();
      if port == [] {
        var p :| p in running;
        Smaller(running, p);
        SlotOf(slots, running, port, p);
        ghost var portWas, logWas := port, log;
        End(p, slots);
        LogGrows(logWas, log, |slots|);
        FlowsMore(old(port), old(log), portWas, logWas, log[|log| - 1]);
      }
    }
  }

  predicate LogFits(log: seq<Reply>, n: nat) {
    forall k :: 0 <= k < |log| ==> log[k].slot < n
  }

  lemma LogGrows(a: seq<Reply>, b: seq<Reply>, n: nat)
    requires LogFits(a, n) && a <= b && |b| == |a| + 1 && b[|a|].slot < n
    ensures LogFits(b, n)
  {
  }

  lemma SlotOf(slots: seq<PeerSlot>, running: map<nat, nat>, port: seq<Reply>, p: nat)
    requires Matched(slots, running, port) && p in running
    ensures running[p] < |slots|
  {
  }

  lemma Smaller(m: map<nat, nat>, p: nat)
    requires p in m
    ensures |m - {p}| == |m| - 1
  {
    var less := m - {p};
    assert m.Keys == less.Keys + {p};
    assert |m.Keys| == |m| && |less.Keys| == |less|;
  }
}
